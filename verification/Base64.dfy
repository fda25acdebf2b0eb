/** Decoding base64 keys: the loop over six-bit symbols, and its inverse from section 4 of RFC 4648. */
module Base64 {

  import opened Common

  /** The symbol of a six-bit value, by ranges. */
  function Symbol(v: nat): char
    requires v < 64
  {
    if v < 26 then 'A' + v as char
    else if v < 52 then 'a' + (v - 26) as char
    else if v < 62 then '0' + (v - 52) as char
    else if v == 62 then '+' else '/'
  }

  function Range(first: char, n: nat): (r: string)
    requires first as int + n < 0xD800
    ensures |r| == n
  {
    seq(n, i requires 0 <= i < n => first + i as char)
  }

  /** `A` to `Z`, `a` to `z`, `0` to `9`, `+`, `/`. */
  const TABLE := Range('A', 26) + Range('a', 26) + Range('0', 10) + "+/"

  /** The table lists the symbols in the order of their values. */
  lemma SymbolsOfTable(v: nat)
    requires v < 64
    ensures |TABLE| == 64 && TABLE[v] == Symbol(v)
  {
  }

  predicate Successive(c: char, d: char)
  {
    d as int == c as int + 1
  }

  /** The alphabet of section 4 of RFC 4648: capitals, small letters, digits, each in order, and two signs. */
  lemma Alphabet()
    ensures |TABLE| == 64 && TABLE[0] == 'A' && TABLE[26] == 'a' && TABLE[52] == '0'
    ensures TABLE[62] == '+' && TABLE[63] == '/'
    ensures forall v | 0 <= v < 62 && v != 25 && v != 51 && v != 61 :: Successive(TABLE[v], TABLE[v + 1])
  {
  }

  // ----- Bits -----

  /** The low `w` bits of `n`, most significant first. */
  function Bits(n: nat, w: nat): (b: seq<bool>)
    ensures |b| == w
  {
    if w == 0 then [] else Bits(n / 2, w - 1) + [n % 2 == 1]
  }

  /** The bits of a list of numbers of `w` bits each. */
  function AllBits(ns: seq<nat>, w: nat): (b: seq<bool>)
    ensures |b| == w * |ns|
  {
    if ns == [] then [] else AllBits(ns[..|ns| - 1], w) + Bits(ns[|ns| - 1], w)
  }

  function Pow2(k: nat): (p: nat)
    ensures p >= 1
  {
    if k == 0 then 1 else 2 * Pow2(k - 1)
  }

  lemma Doubled(a: nat, p: nat)
    ensures a * (2 * p) == 2 * (a * p)
  {
  }

  lemma {:induction false} BitsSplit(a: nat, b: nat, w: nat, k: nat)
    requires b < Pow2(k)
    ensures Bits(a * Pow2(k) + b, w + k) == Bits(a, w) + Bits(b, k)
    decreases k
  {
    if k == 0 {
      assert Bits(b, 0) == [];
      assert a * Pow2(0) + b == a;
    } else {
      var n, x := a * Pow2(k) + b, a * Pow2(k - 1);
      Doubled(a, Pow2(k - 1));
      assert Pow2(k) == 2 * Pow2(k - 1) && n == 2 * x + b && b / 2 < Pow2(k - 1);
      assert n / 2 == x + b / 2 && n % 2 == b % 2;
      hide Pow2;
      BitsSplit(a, b / 2, w, k - 1);
      assert Bits(n, w + k) == Bits(n / 2, w + k - 1) + [n % 2 == 1] && Bits(b, k) == Bits(b / 2, k - 1) + [b % 2 == 1];
    }
  }

  lemma {:induction false} BitsDetermine(a: nat, b: nat, w: nat)
    requires a < Pow2(w) && b < Pow2(w) && Bits(a, w) == Bits(b, w)
    ensures a == b
  {
    if w > 0 {
      var x, y := Bits(a, w), Bits(b, w);
      assert x[..w - 1] == Bits(a / 2, w - 1) && y[..w - 1] == Bits(b / 2, w - 1);
      assert x[w - 1] == (a % 2 == 1) && y[w - 1] == (b % 2 == 1);
      BitsDetermine(a / 2, b / 2, w - 1);
    }
  }

  lemma {:induction false} AllBitsDetermine(a: seq<nat>, b: seq<nat>, w: nat)
    requires |a| == |b| && AllBits(a, w) == AllBits(b, w)
    requires (forall n | n in a :: n < Pow2(w)) && (forall n | n in b :: n < Pow2(w))
    ensures a == b
  {
    if a != [] {
      var k := |a| - 1;
      var x, y := AllBits(a, w), AllBits(b, w);
      assert w * |a| == w * k + w;
      assert x[..w * k] == AllBits(a[..k], w) && x[w * k..] == Bits(a[k], w);
      assert y[..w * k] == AllBits(b[..k], w) && y[w * k..] == Bits(b[k], w);
      assert (forall n | n in a[..k] :: n in a) && (forall n | n in b[..k] :: n in b) && a[k] in a && b[k] in b;
      AllBitsDetermine(a[..k], b[..k], w);
      BitsDetermine(a[k], b[k], w);
      assert a == a[..k] + [a[k]] && b == b[..k] + [b[k]];
    }
  }

  // ----- Decoding -----

  /** The value of a symbol: its position in the table. */
  function Value(c: char): (v: Option<nat>)
    ensures v.Some? ==> v.value < |TABLE| == 64 && TABLE[v.value] == c
    ensures v.None? ==> c !in TABLE
  {
    Position(TABLE, c, 0)
  }

  function Position(table: string, c: char, i: nat): (v: Option<nat>)
    requires i <= |table|
    ensures v.Some? ==> i <= v.value < |table| && table[v.value] == c && c !in table[i..v.value]
    ensures v.None? ==> c !in table[i..]
    decreases |table| - i
  {
    if i == |table| then None
    else if table[i] == c then Some(i)
    else
      var v := Position(table, c, i + 1);
      assert table[i..] == [table[i]] + table[i + 1..];
      assert v.Some? ==> table[i..v.value] == [table[i]] + table[i + 1..v.value];
      v
  }

  function WithoutWhitespace(s: string): string
  {
    if s == "" then ""
    else (if IsWhitespace(s[0]) then "" else [s[0]]) + WithoutWhitespace(s[1..])
  }

  /** The symbols that count: everything before the first `=`. */
  function BeforePadding(s: string): string
  {
    if s == "" || s[0] == '=' then "" else [s[0]] + BeforePadding(s[1..])
  }

  function Symbols(s: string): string
  {
    BeforePadding(WithoutWhitespace(s))
  }

  /** White space counts nowhere, and nothing else is dropped before the padding. */
  lemma {:induction false} SpaceIsDropped(a: string, w: char, b: string)
    ensures IsWhitespace(w) ==> WithoutWhitespace(a + [w] + b) == WithoutWhitespace(a + b)
    ensures (forall c | c in a :: !IsWhitespace(c)) ==> WithoutWhitespace(a) == a
  {
    hide IsWhitespace;
    if a == "" {
      assert a + [w] + b == [w] + b && a + b == b;
    } else {
      assert (a + [w] + b)[1..] == a[1..] + [w] + b && (a + b)[1..] == a[1..] + b;
      assert forall c | c in a[1..] :: c in a;
      SpaceIsDropped(a[1..], w, b);
    }
  }

  predicate AllValid(symbols: string)
  {
    forall c | c in symbols :: c in TABLE
  }

  function ValueOrZero(c: char): nat
  {
    match Value(c) case Some(v) => v case None => 0
  }

  function Values(symbols: string): (vs: seq<nat>)
    ensures |vs| == |symbols|
  {
    seq(|symbols|, i requires 0 <= i < |symbols| => ValueOrZero(symbols[i]))
  }

  /**
    What the decoder returns for `n` symbols: floor(6n/8) octets whose bits are
    the symbols' bits in order, the remaining ones dropped.
  */
  ghost predicate IsDecoding(symbols: string, out: Bytes)
  {
    |out| == 6 * |symbols| / 8 && AllBits(out, 8) == AllBits(Values(symbols), 6)[..8 * |out|]
  }

  lemma ValuesAppend(symbols: string, c: char)
    ensures Values(symbols + [c]) == Values(symbols) + [ValueOrZero(c)]
  {
  }

  /** `(buf << 6) | val` on 32 bits. */
  function ShiftIn(buf: nat, val: nat): (r: nat)
    ensures buf * 64 < U32 ==> r == buf * 64 + val
  {
    (buf * 64) % U32 + val
  }

  /** `n as u8`. */
  function LowOctet(n: nat): (r: byte)
    ensures n < 256 ==> r == n
  {
    n % 256
  }

  function Quotient(n: nat, p: nat): (q: nat)
    requires p > 0
  {
    n / p
  }

  function Remainder(n: nat, p: nat): (r: nat)
    requires p > 0
  {
    n % p
  }

  /** `n >> k`. */
  function High(n: nat, k: nat): nat
  {
    Quotient(n, Pow2(k))
  }

  /** `n & ((1 << k) - 1)`. */
  function Low(n: nat, k: nat): nat
  {
    Remainder(n, Pow2(k))
  }

  lemma Pow2Values()
    ensures Pow2(0) == 1 && Pow2(2) == 4 && Pow2(4) == 16 && Pow2(6) == 64 && Pow2(8) == 256
    ensures Pow2(10) == 1024 && Pow2(12) == 4096
  {
    assert Pow2(3) == 8 && Pow2(5) == 32 && Pow2(7) == 128 && Pow2(9) == 512 && Pow2(11) == 2048;
  }

  lemma SplitOctet(n: nat, k: nat)
    requires n < 256 * Pow2(k)
    ensures High(n, k) < 256 && Low(n, k) < Pow2(k)
    ensures Bits(n, 8 + k) == Bits(High(n, k), 8) + Bits(Low(n, k), k)
  {
    hide Bits, Pow2;
    Division(n, Pow2(k));
    DivisionBound(n, Pow2(k), 256);
    BitsSplit(High(n, k), Low(n, k), 8, k);
  }

  lemma DivisionBound(n: nat, p: nat, q: nat)
    requires p > 0 && n < q * p
    ensures Quotient(n, p) < q
  {
    Monotone(q, n / p, p);
  }

  lemma Division(n: nat, p: nat)
    requires p > 0
    ensures Remainder(n, p) < p && n == Quotient(n, p) * p + Remainder(n, p)
  {
  }

  lemma Monotone(a: nat, b: nat, p: nat)
    ensures a <= b ==> a * p <= b * p
  {
  }

  /**
    The decoder's accumulator after some symbols: finished octets, and `bits`
    pending bits in `buf`; together they are the symbols' bits.
  */
  ghost predicate Accumulated(vs: seq<nat>, out: Bytes, buf: nat, bits: nat)
  {
    && (bits == 0 || bits == 2 || bits == 4 || bits == 6) && buf < Pow2(bits)
    && 8 * |out| + bits == 6 * |vs|
    && AllBits(out, 8) + Bits(buf, bits) == AllBits(vs, 6)
  }

  lemma AllBitsStep(ns: seq<nat>, n: nat, w: nat)
    ensures AllBits(ns + [n], w) == AllBits(ns, w) + Bits(n, w)
  {
    hide Bits;
    assert (ns + [n])[..|ns|] == ns;
  }

  /** One symbol: the shift stays within 32 bits and the octet that is cast off within 8, so no bit is lost. */
  lemma TakeSymbol(vs: seq<nat>, val: nat, out: Bytes, buf: nat, bits: nat)
    requires Accumulated(vs, out, buf, bits) && val < 64
    ensures buf * 64 + val < U32
    ensures bits < 2 ==> Accumulated(vs + [val], out, buf * 64 + val, bits + 6)
    ensures bits >= 2 ==>
              var next, k := buf * 64 + val, bits - 2;
              High(next, k) < 256 && Accumulated(vs + [val], out + [High(next, k)], Low(next, k), k)
  {
    hide Bits, Pow2, High, Low, AllBits;
    Pow2Values();
    var next, all := buf * 64 + val, AllBits(vs + [val], 6);
    BitsSplit(buf, val, bits, 6);
    AllBitsStep(vs, val, 6);
    assert all == AllBits(out, 8) + Bits(next, bits + 6);
    if bits >= 2 {
      SplitOctet(next, bits - 2);
      var octet: byte := High(next, bits - 2);
      AllBitsStep(out, octet, 8);
      assert all == AllBits(out + [octet], 8) + Bits(Low(next, bits - 2), bits - 2);
    }
  }

  lemma NothingTaken()
    ensures AllValid("") && Accumulated(Values(""), [], 0, 0)
  {
  }

  lemma AllTaken(symbols: string, out: Bytes, buf: nat, bits: nat)
    requires Accumulated(Values(symbols), out, buf, bits)
    ensures IsDecoding(symbols, out)
  {
  }

  lemma ValidNext(symbols: string, i: nat)
    requires i < |symbols|
    ensures Value(symbols[i]).None? ==> !AllValid(symbols)
    ensures Value(symbols[i]).Some? && AllValid(symbols[..i]) ==> AllValid(symbols[..i + 1])
  {
    assert symbols[i] in symbols;
    TakeStep(symbols, i + 1);
  }

  /** Decodes text, skipping whitespace and stopping at padding; a symbol outside the table is an error. */
  method DecodeB64(s: string) returns (r: Result<Bytes>)
    ensures r.Ok? <==> AllValid(Symbols(s))
    ensures r.Ok? ==> IsDecoding(Symbols(s), r.value)
  {
    hide AllValid, IsDecoding, Values, Bits, AllBits, BeforePadding, Accumulated, Pow2, Value, ShiftIn, LowOctet,
        High, Low;
    var text := WithoutWhitespace(s);
    ghost var symbols := Symbols(s);
    SymbolsArePrefix(text);
    var out: Bytes := [];
    NothingTaken();
    var buf: nat, bits: nat := 0, 0;
    var i := 0;
    assert symbols[..0] == "";
    while i < |text| && text[i] != '='
      invariant 0 <= i <= |symbols| && symbols <= text
      invariant AllValid(symbols[..i])
      invariant Accumulated(Values(symbols[..i]), out, buf, bits)
    {
      assert i < |symbols| && symbols[i] == text[i];
      TakeStep(symbols, i + 1);
      var c := text[i];
      var val := Value(c);
      ValidNext(symbols, i);
      if val.None? {
        return Err("invalid base64 char");
      }
      ValuesAppend(symbols[..i], c);
      TakeSymbol(Values(symbols[..i]), val.value, out, buf, bits);
      ghost var vs := Values(symbols[..i]) + [val.value];
      assert Values(symbols[..i + 1]) == vs;
      buf := ShiftIn(buf, val.value);
      bits := bits + 6;
      if bits >= 8 {
        bits := bits - 8;
        out := out + [LowOctet(High(buf, bits))];
        buf := Low(buf, bits);
      }
      assert Accumulated(vs, out, buf, bits);
      i := i + 1;
    }
    assert i == |symbols| && symbols[..i] == symbols;
    AllTaken(symbols, out, buf, bits);
    return Ok(out);
  }

  lemma {:induction false} SymbolsArePrefix(text: string)
    ensures BeforePadding(text) <= text
    ensures '=' !in BeforePadding(text)
    ensures |BeforePadding(text)| < |text| ==> text[|BeforePadding(text)|] == '='
  {
    if text != "" && text[0] != '=' {
      SymbolsArePrefix(text[1..]);
      assert text == [text[0]] + text[1..];
    }
  }

  const KEY_LENGTH := 32

  /** Whitespace around and inside the text is dropped by the decoder itself. */
  method DecodeKey(s: string) returns (r: Result<Bytes>)
    ensures r.Ok? <==> AllValid(Symbols(s)) && 6 * |Symbols(s)| / 8 == 32
    ensures r.Ok? ==> IsDecoding(Symbols(s), r.value) && |r.value| == 32
  {
    r := DecodeB64(s);
    if r.Ok? && |r.value| != KEY_LENGTH { return Err("key must be 32 bytes"); }
  }

  // ----- Encoding -----

  /** The octet at a position, zero if there is none. */
  function Octet(bs: Bytes, i: nat): byte
  {
    if i < |bs| then bs[i] else 0
  }

  /** The 24 bits of the next three octets as four six-bit values, zero bits standing in for missing octets. */
  function Group(bs: Bytes): (vs: seq<nat>)
    ensures |vs| == 4 && forall i | 0 <= i < 4 :: vs[i] < 64
  {
    var x, y, z := Octet(bs, 0), Octet(bs, 1), Octet(bs, 2);
    [x / 4, x % 4 * 16 + y / 16, y % 16 * 4 + z / 64, z % 64]
  }

  function Spelled(vs: seq<nat>): (r: string)
    requires forall i | 0 <= i < |vs| :: vs[i] < 64
    ensures |r| == |vs|
  {
    seq(|vs|, i requires 0 <= i < |vs| => Symbol(vs[i]))
  }

  /** Three octets become four symbols; a last one or two become two or three symbols and padding. */
  function Encode(bs: Bytes): string
    decreases |bs|
  {
    if bs == [] then ""
    else if |bs| == 1 then Spelled(Group(bs)[..2]) + "=="
    else if |bs| == 2 then Spelled(Group(bs)[..3]) + "="
    else Spelled(Group(bs)) + Encode(bs[3..])
  }

  /** The six-bit values of an encoding, without the padding. */
  function Sextets(bs: Bytes): seq<nat>
    decreases |bs|
  {
    if bs == [] then []
    else if |bs| < 3 then Group(bs)[..|bs| + 1]
    else Group(bs) + Sextets(bs[3..])
  }

  lemma SymbolValue(v: nat)
    requires v < 64
    ensures Value(Symbol(v)) == Some(v) && Symbol(v) != '=' && !IsWhitespace(Symbol(v))
  {
    SymbolsOfTable(v);
    assert TABLE[v] in TABLE;
    var found := Value(Symbol(v)).value;
    SymbolsOfTable(found);
    assert Symbol(found) == Symbol(v);
  }

  /** Spelled-out values in front of a text are kept by both filters. */
  lemma {:induction false} SpelledIsKept(vs: seq<nat>, rest: string)
    requires forall i | 0 <= i < |vs| :: vs[i] < 64
    ensures WithoutWhitespace(Spelled(vs) + rest) == Spelled(vs) + WithoutWhitespace(rest)
    ensures BeforePadding(Spelled(vs) + rest) == Spelled(vs) + BeforePadding(rest)
  {
    hide Value;
    if vs == [] {
      assert Spelled(vs) + rest == rest;
    } else {
      var all := Spelled(vs) + rest;
      SymbolValue(vs[0]);
      SpelledIsKept(vs[1..], rest);
      assert all[0] == Symbol(vs[0]) && all[1..] == Spelled(vs[1..]) + rest;
      assert Spelled(vs) == [Symbol(vs[0])] + Spelled(vs[1..]);
    }
  }

  lemma SpelledValues(vs: seq<nat>, symbols: string)
    requires forall i | 0 <= i < |vs| :: vs[i] < 64
    ensures Values(Spelled(vs) + symbols) == vs + Values(symbols)
    ensures AllValid(symbols) ==> AllValid(Spelled(vs) + symbols)
  {
    hide Value;
    forall i | 0 <= i < |vs| ensures Value(Spelled(vs)[i]) == Some(vs[i]) && Spelled(vs)[i] in TABLE {
      SymbolValue(vs[i]);
      SymbolsOfTable(vs[i]);
      assert TABLE[vs[i]] in TABLE;
    }
  }

  lemma {:induction false} EncodedSymbols(bs: Bytes)
    ensures WithoutWhitespace(Encode(bs)) == Encode(bs)
    ensures Values(BeforePadding(Encode(bs))) == Sextets(bs) && AllValid(BeforePadding(Encode(bs)))
    decreases |bs|
  {
    hide Group;
    if 0 < |bs| < 3 {
      var vs, padding := Group(bs)[..|bs| + 1], if |bs| == 1 then "==" else "=";
      SpelledIsKept(vs, padding);
      SpelledValues(vs, "");
      assert WithoutWhitespace("=") == "=" && WithoutWhitespace("==") == "==";
      assert Spelled(vs) + "" == Spelled(vs) && vs + [] == vs;
    } else if |bs| >= 3 {
      SpelledIsKept(Group(bs), Encode(bs[3..]));
      SpelledValues(Group(bs), BeforePadding(Encode(bs[3..])));
      EncodedSymbols(bs[3..]);
    }
  }

  lemma {:induction false} AllBitsAppend(a: seq<nat>, b: seq<nat>, w: nat)
    ensures AllBits(a + b, w) == AllBits(a, w) + AllBits(b, w)
  {
    hide Bits;
    if b == [] {
      assert a + b == a;
    } else {
      var k := |b| - 1;
      hide AllBits;
      AllBitsAppend(a, b[..k], w);
      AllBitsStep(a + b[..k], b[k], w);
      AllBitsStep(b[..k], b[k], w);
      assert a + b[..k] + [b[k]] == a + b && b[..k] + [b[k]] == b;
    }
  }

  lemma CutBits(n: nat, w: nat, k: nat)
    ensures Bits(n, w + k) == Bits(High(n, k), w) + Bits(Low(n, k), k)
  {
    hide Bits, Pow2, Quotient, Remainder;
    Division(n, Pow2(k));
    BitsSplit(High(n, k), Low(n, k), w, k);
  }

  /** Three octets and their four sextets are the same 24 bits. */
  lemma SameGroupBits(x: byte, y: byte, z: byte)
    ensures Bits(x, 8) + Bits(y, 8) + Bits(z, 8)
            == Bits(x / 4, 6) + Bits(x % 4 * 16 + y / 16, 6) + Bits(y % 16 * 4 + z / 64, 6) + Bits(z % 64, 6)
  {
    hide Bits, Pow2;
    Pow2Values();
    CutBits(x, 6, 2);
    CutBits(y, 4, 4);
    CutBits(z, 2, 6);
    BitsSplit(x % 4, y / 16, 2, 4);
    BitsSplit(y % 16, z / 64, 4, 2);
  }

  lemma BitsOfFew(a: nat, b: nat, c: nat, d: nat, w: nat)
    ensures AllBits([a], w) == Bits(a, w)
    ensures AllBits([a, b], w) == Bits(a, w) + Bits(b, w)
    ensures AllBits([a, b, c], w) == Bits(a, w) + Bits(b, w) + Bits(c, w)
    ensures AllBits([a, b, c, d], w) == Bits(a, w) + Bits(b, w) + Bits(c, w) + Bits(d, w)
  {
    hide Bits;
    assert [a][..0] == [] && [a, b][..1] == [a] && [a, b, c][..2] == [a, b] && [a, b, c, d][..3] == [a, b, c];
  }

  /** The bits of a group are those of its octets. */
  lemma GroupBits(bs: Bytes)
    requires bs != []
    ensures var n := if |bs| < 3 then |bs| else 3;
            AllBits(bs[..n], 8) == AllBits(Group(bs), 6)[..8 * n]
  {
    hide Bits;
    var x, y, z, vs := Octet(bs, 0), Octet(bs, 1), Octet(bs, 2), Group(bs);
    SameGroupBits(x, y, z);
    BitsOfFew(x, y, z, 0, 8);
    BitsOfFew(vs[0], vs[1], vs[2], vs[3], 6);
    if |bs| == 1 {
      assert bs[..1] == [x];
    } else if |bs| == 2 {
      assert bs[..2] == [x, y];
    } else {
      assert bs[..3] == [x, y, z];
    }
  }

  lemma {:induction false} PrefixBits(ns: seq<nat>, k: nat, w: nat)
    requires k <= |ns|
    ensures w * k <= w * |ns| && AllBits(ns[..k], w) == AllBits(ns, w)[..w * k]
  {
    assert ns == ns[..k] + ns[k..];
    AllBitsAppend(ns[..k], ns[k..], w);
    assert w * |ns| == w * k + w * |ns[k..]|;
  }

  /** The bits of an encoding are those of the octets, followed by too few bits for another octet. */
  lemma {:induction false} SextetBits(bs: Bytes)
    ensures AllBits(bs, 8) <= AllBits(Sextets(bs), 6)
    ensures 6 * |Sextets(bs)| / 8 == |bs|
    decreases |bs|
  {
    hide Bits, Group, AllBits;
    if 0 < |bs| < 3 {
      GroupBits(bs);
      PrefixBits(Group(bs), |bs| + 1, 6);
      assert bs[..|bs|] == bs;
    } else if |bs| >= 3 {
      GroupBits(bs);
      assert bs == bs[..3] + bs[3..];
      AllBitsAppend(bs[..3], bs[3..], 8);
      AllBitsAppend(Group(bs), Sextets(bs[3..]), 6);
      SextetBits(bs[3..]);
    }
    NoBits();
  }

  lemma NoBits()
    ensures AllBits([], 8) == [] && AllBits([], 6) == []
  {
  }

  /** Decoding inverts encoding, for octet strings of every length. */
  lemma EncodeThenDecode(bs: Bytes, out: Bytes)
    ensures AllValid(Symbols(Encode(bs)))
    ensures IsDecoding(Symbols(Encode(bs)), out) <==> out == bs
  {
    hide Bits, Encode, Sextets;
    EncodedSymbols(bs);
    SextetBits(bs);
    var all := AllBits(Sextets(bs), 6);
    if IsDecoding(Symbols(Encode(bs)), out) {
      Pow2Values();
      AllBitsDetermine(out, bs, 8);
    }
  }

  /** The examples of section 10 of RFC 4648 that end a text in each way. */
  lemma EncodesExamples()
    ensures Encode([0x66]) == "Zg==" && Encode([0x66, 0x6F]) == "Zm8=" && Encode([0x66, 0x6F, 0x6F]) == "Zm9v"
  {
    assert Group([0x66]) == [25, 32, 0, 0] && Group([0x66, 0x6F]) == [25, 38, 60, 0];
    assert Group([0x66, 0x6F, 0x6F]) == [25, 38, 61, 47];
    hide Group;
    assert [25, 32, 0, 0][..2] == [25, 32] && [25, 38, 60, 0][..3] == [25, 38, 60];
    assert Spelled([25, 32]) == "Zg" && Spelled([25, 38, 60]) == "Zm8" && Spelled([25, 38, 61, 47]) == "Zm9v";
    hide Spelled;
    assert [0x66, 0x6F, 0x6F][3..] == [];
  }

  method EncodeDecode(bs: Bytes) returns (r: Result<Bytes>)
    ensures r == Ok(bs)
  {
    EncodeThenDecode(bs, bs);
    r := DecodeB64(Encode(bs));
    if r.Ok? { EncodeThenDecode(bs, r.value); }
  }
}
