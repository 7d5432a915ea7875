/** What the encoder writes, the decoder reads back. */
module RoundTrip {
  import opened Bits
  import opened RangeInterval
  import opened Cdf
  import Encoder
  import Reader

  /** How the next symbol is coded: with an adaptive table, with one that stays as it is, or as
      a single bit of given probability. */
  datatype Coding = Adaptive(ctx: nat) | Static(table: CdfTable) | Flag(f: nat)

  type Bank = seq<CdfTable>

  /** Both sides pick the next table from the symbols already coded. */
  type Syntax = seq<nat> -> Coding

  ghost predicate WellFormed(next: Syntax, bank: Bank) {
    && (forall i :: 0 <= i < |bank| ==> Adaptable(bank[i]))
    && (forall h :: next(h).Adaptive? ==> next(h).ctx < |bank|)
    && (forall h :: next(h).Static? ==> Codable(next(h).table))
    && (forall h :: next(h).Flag? ==> 0 < next(h).f < 32768)
  }

  function TableOf(bank: Bank, c: Coding): CdfTable
    requires c.Adaptive? ==> c.ctx < |bank|
  {
    match c
    case Adaptive(ctx) => bank[ctx]
    case Static(table) => table
    case Flag(f) => [f, 0]
  }

  function Learn(bank: Bank, c: Coding, s: nat): Bank
    requires c.Adaptive? ==> c.ctx < |bank| && Adaptable(bank[c.ctx])
  {
    match c
    case Adaptive(ctx) => bank[ctx := Learned(bank[ctx], s)]
    case Static(_) => bank
    case Flag(_) => bank
  }

  ghost function BankAfter(next: Syntax, bank: Bank, syms: seq<nat>): (r: Bank)
    requires WellFormed(next, bank)
    ensures WellFormed(next, r) && |r| == |bank|
    decreases |syms|
  {
    if syms == [] then bank
    else
      var h, s := syms[..|syms| - 1], syms[|syms| - 1];
      var b := BankAfter(next, bank, h);
      if next(h).Adaptive? then Learn(b, next(h), s) else b
  }

  ghost function TableAfter(next: Syntax, bank: Bank, h: seq<nat>): (c: CdfTable)
    requires WellFormed(next, bank)
    ensures Codable(c)
  {
    var b := BankAfter(next, bank, h);
    if next(h).Adaptive? then AdaptableIsCodable(b[next(h).ctx]); TableOf(b, next(h))
    else TableOf(b, next(h))
  }

  /** Every symbol is one of the table it is coded with. */
  ghost predicate InRange(next: Syntax, bank: Bank, syms: seq<nat>)
    requires WellFormed(next, bank)
    decreases |syms|
  {
    syms != [] ==>
      && InRange(next, bank, syms[..|syms| - 1])
      && syms[|syms| - 1] < |TableAfter(next, bank, syms[..|syms| - 1])|
  }

  ghost function Tokens(next: Syntax, bank: Bank, syms: seq<nat>): (ts: seq<Token>)
    requires WellFormed(next, bank) && InRange(next, bank, syms)
    ensures AllValid(ts) && |ts| == |syms|
    decreases |syms|
  {
    if syms == [] then []
    else
      var h, s := syms[..|syms| - 1], syms[|syms| - 1];
      TokenOfValid(TableAfter(next, bank, h), s);
      Tokens(next, bank, h) + [TokenOf(TableAfter(next, bank, h), s)]
  }

  lemma {:induction false} InRangePrefix(next: Syntax, bank: Bank, syms: seq<nat>, k: nat)
    requires WellFormed(next, bank) && InRange(next, bank, syms) && k <= |syms|
    ensures InRange(next, bank, syms[..k])
    decreases |syms|
  {
    if k == |syms| {
      assert syms[..k] == syms;
    } else {
      InRangePrefix(next, bank, syms[..|syms| - 1], k);
      assert syms[..|syms| - 1][..k] == syms[..k];
    }
  }

  /** What one more symbol of a message adds. */
  lemma Step(next: Syntax, bank: Bank, syms: seq<nat>, k: nat)
    requires WellFormed(next, bank) && InRange(next, bank, syms) && k < |syms|
    ensures InRange(next, bank, syms[..k]) && InRange(next, bank, syms[..k + 1])
    ensures syms[k] < |TableAfter(next, bank, syms[..k])|
    ensures var t := TokenOf(TableAfter(next, bank, syms[..k]), syms[k]);
      && ValidToken(t)
      && Tokens(next, bank, syms[..k + 1]) == Tokens(next, bank, syms[..k]) + [t]
      && Code(Tokens(next, bank, syms[..k + 1])) == Narrow(Code(Tokens(next, bank, syms[..k])), t)
    ensures var b := BankAfter(next, bank, syms[..k]);
      && (next(syms[..k]).Adaptive? ==> next(syms[..k]).ctx < |b| && Adaptable(b[next(syms[..k]).ctx]))
      && (next(syms[..k]).Flag? ==> 0 < next(syms[..k]).f < 32768)
      && TableAfter(next, bank, syms[..k]) == TableOf(b, next(syms[..k]))
      && BankAfter(next, bank, syms[..k + 1]) == Learn(b, next(syms[..k]), syms[k])
  {
    hide Narrow, Adapted;
    var h, h' := syms[..k], syms[..k + 1];
    InRangePrefix(next, bank, syms, k + 1);
    assert h'[..k] == h && h'[k] == syms[k];
    TokenOfValid(TableAfter(next, bank, h), syms[k]);
    CodeSnoc(Tokens(next, bank, h), TokenOf(TableAfter(next, bank, h), syms[k]));
  }

  /** A bitstream of a whole message is one of each of its beginnings. */
  lemma {:induction false} BeginningHolds(next: Syntax, bank: Bank, syms: seq<nat>, k: nat, b: seq<u8>)
    requires WellFormed(next, bank) && InRange(next, bank, syms) && k <= |syms|
    requires Holds(Code(Tokens(next, bank, syms)), b)
    ensures InRange(next, bank, syms[..k]) && Holds(Code(Tokens(next, bank, syms[..k])), b)
    decreases |syms| - k
  {
    hide Tokens, BankAfter, Narrow, Code, Holds, TableAfter, InRange;
    if k == |syms| {
      assert syms[..k] == syms;
    } else {
      BeginningHolds(next, bank, syms, k + 1, b);
      Step(next, bank, syms, k);
      NarrowHolds(Code(Tokens(next, bank, syms[..k])), TokenOf(TableAfter(next, bank, syms[..k]), syms[k]), b);
    }
  }

  /** If a bitstream lies in the interval of a message, the symbol it picks after a
      beginning of the message is the message's next one. */
  lemma NextSymbol(next: Syntax, bank: Bank, syms: seq<nat>, k: nat, s: nat, b: seq<u8>)
    requires WellFormed(next, bank) && InRange(next, bank, syms) && k < |syms|
    requires Holds(Code(Tokens(next, bank, syms)), b)
    requires InRange(next, bank, syms[..k])
    requires s < |TableAfter(next, bank, syms[..k])|
    requires ValidToken(TokenOf(TableAfter(next, bank, syms[..k]), s))
    requires Holds(Narrow(Code(Tokens(next, bank, syms[..k])), TokenOf(TableAfter(next, bank, syms[..k]), s)), b)
    ensures s == syms[k]
  {
    hide Tokens, BankAfter, Narrow, Code, Holds, TableAfter, InRange;
    Step(next, bank, syms, k);
    BeginningHolds(next, bank, syms, k + 1, b);
    SymbolUnique(Code(Tokens(next, bank, syms[..k])), TableAfter(next, bank, syms[..k]), s, syms[k], b);
  }

  // The tables in memory ------------------------------------------------------------------

  /** Arrays of their own hold the tables of a bank. */
  ghost predicate InMemory(tables: seq<array<nat>>, bank: Bank)
    reads tables
  {
    && |tables| == |bank|
    && (forall i, j :: 0 <= i < j < |tables| ==> tables[i] != tables[j])
    && (forall i :: 0 <= i < |tables| ==> tables[i][..] == bank[i])
  }

  method Load(bank: Bank) returns (tables: seq<array<nat>>)
    ensures InMemory(tables, bank) && fresh(tables)
  {
    tables := [];
    for i := 0 to |bank|
      invariant |tables| == i && fresh(tables)
      invariant InMemory(tables, bank[..i])
    {
      var table := new nat[|bank[i]|](k requires 0 <= k < |bank[i]| => bank[i][k]);
      assert table[..] == bank[i];
      tables := tables + [table];
    }
    assert bank[..|bank|] == bank;
  }

  /** Writes a message, ends the stream, and reads it back with the same starting tables. */
  method EncodeDecode(next: Syntax, bank: Bank, syms: seq<nat>) returns (bytes: seq<u8>, decoded: seq<nat>)
    requires WellFormed(next, bank) && InRange(next, bank, syms)
    ensures Holds(Code(Tokens(next, bank, syms)), bytes)
    ensures decoded == syms
  {
    var tables := Load(bank);
    bytes := Encode(next, tables, bank, syms);
    BeginningHolds(next, bank, syms, 0, bytes);
    tables := Load(bank);
    decoded := Decode(next, tables, bank, bytes, |syms|, syms);
  }

  lemma EmptyMessage(next: Syntax, bank: Bank)
    requires WellFormed(next, bank)
    ensures InRange(next, bank, []) && BankAfter(next, bank, []) == bank
    ensures Tokens(next, bank, []) == [] && Code([]) == WHOLE
  {
  }

  method EncodeAdaptive(w: Encoder.WriterEncoder, tables: seq<array<nat>>, ctx: nat, s: nat, ghost bank: Bank)
    requires w.Valid() && InMemory(tables, bank) && ctx < |bank| && Adaptable(bank[ctx]) && s < |bank[ctx]|
    modifies w, tables
    ensures w.Valid() && w.tokens == old(w.tokens) + [TokenOf(bank[ctx], s)]
    ensures InMemory(tables, bank[ctx := Learned(bank[ctx], s)])
  {
    hide Adaptable, TokenOf, Learned, AllValid;
    w.SymbolWithUpdate(s, tables[ctx]);
  }

  /** Codes one symbol in its way. */
  method EncodeSymbol(w: Encoder.WriterEncoder, tables: seq<array<nat>>, coding: Coding, s: nat, ghost bank: Bank)
    requires w.Valid() && InMemory(tables, bank)
    requires coding.Adaptive? ==> coding.ctx < |bank| && Adaptable(bank[coding.ctx])
    requires coding.Flag? ==> 0 < coding.f < 32768
    requires Codable(TableOf(bank, coding)) && s < |TableOf(bank, coding)|
    modifies w, tables
    ensures w.Valid() && w.tokens == old(w.tokens) + [TokenOf(TableOf(bank, coding), s)]
    ensures InMemory(tables, Learn(bank, coding, s))
  {
    hide Adaptable, TokenOf, AllValid, InMemory, Learned, Encoder.WriterEncoder.Valid;
    match coding
    case Adaptive(ctx) =>
      EncodeAdaptive(w, tables, ctx, s, bank);
    case Static(table) =>
      w.Symbol(s, table);
    case Flag(f) =>
      w.Bool(s == 1, f);
  }

  /** Both ends of a stream start from the same tables in memory and leave the same there. */
  method Encode(next: Syntax, tables: seq<array<nat>>, ghost bank: Bank, syms: seq<nat>) returns (bytes: seq<u8>)
    requires WellFormed(next, bank) && InRange(next, bank, syms) && InMemory(tables, bank)
    modifies tables
    ensures Holds(Code(Tokens(next, bank, syms)), bytes)
    ensures InMemory(tables, BankAfter(next, bank, syms))
  {
    hide BankAfter, Narrow, Code, Holds, TableAfter, InRange, Tokens, TableOf, Learn, InMemory;
    EmptyMessage(next, bank);
    var w := new Encoder.WriterEncoder();
    assert syms[..0] == [];
    for i := 0 to |syms|
      invariant fresh(w) && w.Valid()
      invariant InRange(next, bank, syms[..i])
      invariant InMemory(tables, BankAfter(next, bank, syms[..i]))
      invariant w.tokens == Tokens(next, bank, syms[..i])
    {
      Step(next, bank, syms, i);
      EncodeSymbol(w, tables, next(syms[..i]), syms[i], BankAfter(next, bank, syms[..i]));
    }
    assert syms[..|syms|] == syms;
    bytes := w.Done();
  }

  /** Decodes one symbol in its way. */
  method DecodeSymbol(r: Reader.Reader, tables: seq<array<nat>>, coding: Coding, ghost bank: Bank) returns (s: nat)
    requires r.Valid() && InMemory(tables, bank)
    requires coding.Adaptive? ==> coding.ctx < |bank| && Adaptable(bank[coding.ctx])
    requires coding.Flag? ==> 0 < coding.f < 32768
    requires Codable(TableOf(bank, coding))
    modifies r, tables
    ensures r.Valid()
    ensures s < |TableOf(bank, coding)| && ValidToken(TokenOf(TableOf(bank, coding), s))
    ensures r.At() == Narrow(old(r.At()), TokenOf(TableOf(bank, coding), s))
    ensures InMemory(tables, Learn(bank, coding, s))
  {
    hide Codable, Adapted, Narrow;
    match coding {
      case Adaptive(ctx) =>
        var table := tables[ctx];
        s := r.Symbol(table[..]);
        UpdateCdf(table, s);
      case Static(table) =>
        s := r.Symbol(table);
      case Flag(f) =>
        var one := r.Bool(f);
        s := if one then 1 else 0;
    }
  }

  /** The decoder is told only how many symbols to read; the message is there for the proof. */
  method Decode(next: Syntax, tables: seq<array<nat>>, ghost bank: Bank, bytes: seq<u8>, n: nat, ghost syms: seq<nat>)
      returns (decoded: seq<nat>)
    requires WellFormed(next, bank) && InRange(next, bank, syms) && n == |syms| && InMemory(tables, bank)
    requires Holds(WHOLE, bytes) && Holds(Code(Tokens(next, bank, syms)), bytes)
    modifies tables
    ensures decoded == syms
    ensures InMemory(tables, BankAfter(next, bank, syms))
  {
    hide BankAfter, Narrow, Code, Holds, TableAfter, InRange, Tokens, TableOf, Learn, InMemory;
    EmptyMessage(next, bank);
    var r := new Reader.Reader(bytes);
    decoded := [];
    assert syms[..0] == [];
    for i := 0 to n
      invariant fresh(r) && r.Valid() && r.buf == bytes
      invariant decoded == syms[..i] && InRange(next, bank, syms[..i])
      invariant InMemory(tables, BankAfter(next, bank, syms[..i]))
      invariant r.At() == Code(Tokens(next, bank, syms[..i]))
    {
      Step(next, bank, syms, i);
      var s := DecodeSymbol(r, tables, next(decoded), BankAfter(next, bank, syms[..i]));
      NextSymbol(next, bank, syms, i, s, bytes);
      decoded := decoded + [s];
    }
    assert syms[..|syms|] == syms;
  }
}
