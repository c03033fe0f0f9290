/** Unpadded base64url (section 5 of RFC 4648) with strict decoding: the unused
    low bits of a final group must be zero. */
module Base64 {
  import opened Bytes

  type Six = n: int | 0 <= n < 64

  /** One symbol of the URL-safe alphabet. */
  function Symbol(n: Six): Byte {
    if n < 26 then 65 + n            // A-Z
    else if n < 52 then 97 + n - 26  // a-z
    else if n < 62 then 48 + n - 52  // 0-9
    else if n == 62 then 45          // -
    else 95                          // _
  }

  function Value(c: Byte): (v: Option<Six>)
    ensures v.Some? ==> Symbol(v.value) == c
    ensures v.None? ==> forall n: Six :: Symbol(n) != c
  {
    if 65 <= c < 91 then Some(c - 65)
    else if 97 <= c < 123 then Some(c - 97 + 26)
    else if 48 <= c < 58 then Some(c - 48 + 52)
    else if c == 45 then Some(62)
    else if c == 95 then Some(63)
    else None
  }

  function Symbols(x: seq<Six>): (s: Bytes)
    ensures |s| == |x|
  {
    if x == [] then [] else [Symbol(x[0])] + Symbols(x[1..])
  }

  function Values(s: Bytes): (x: Option<seq<Six>>)
    ensures x.Some? ==> |x.value| == |s|
  {
    if s == [] then Some([])
    else
      var first, rest := Value(s[0]), Values(s[1..]);
      if first.None? || rest.None? then None else Some([first.value] + rest.value)
  }

  // The four six-bit numbers of three bytes, and the three bytes of four numbers.
  function First(b0: Byte): Six { b0 / 4 }
  function Second(b0: Byte, b1: Byte): Six { b0 % 4 * 16 + b1 / 16 }
  function Third(b1: Byte, b2: Byte): Six { b1 % 16 * 4 + b2 / 64 }
  function Fourth(b2: Byte): Six { b2 % 64 }
  function Octet0(x0: Six, x1: Six): Byte { x0 * 4 + x1 / 16 }
  function Octet1(x1: Six, x2: Six): Byte { x1 % 16 * 16 + x2 / 4 }
  function Octet2(x2: Six, x3: Six): Byte { x2 % 4 * 64 + x3 }
  predicate NoLowFour(x1: Six) { x1 % 16 == 0 }
  predicate NoLowTwo(x2: Six) { x2 % 4 == 0 }

  function Sextets(b: Bytes): (x: seq<Six>)
    ensures |x| == (4 * |b| + 2) / 3
  {
    if |b| == 0 then []
    else if |b| == 1 then [First(b[0]), Second(b[0], 0)]
    else if |b| == 2 then [First(b[0]), Second(b[0], b[1]), Third(b[1], 0)]
    else [First(b[0]), Second(b[0], b[1]), Third(b[1], b[2]), Fourth(b[2])] + Sextets(b[3..])
  }

  function Octets(x: seq<Six>): Option<Bytes> {
    if |x| == 0 then Some([])
    else if |x| == 1 then None
    else if |x| == 2 then if NoLowFour(x[1]) then Some([Octet0(x[0], x[1])]) else None
    else if |x| == 3 then
      if NoLowTwo(x[2]) then Some([Octet0(x[0], x[1]), Octet1(x[1], x[2])]) else None
    else
      var rest := Octets(x[4..]);
      if rest.None? then None
      else Some([Octet0(x[0], x[1]), Octet1(x[1], x[2]), Octet2(x[2], x[3])] + rest.value)
  }

  function Encode(b: Bytes): (s: Bytes)
    ensures |s| == (4 * |b| + 2) / 3
  {
    Symbols(Sextets(b))
  }

  function Decode(s: Bytes): Option<Bytes> {
    var x := Values(s);
    if x.None? then None else Octets(x.value)
  }

  lemma ValueSymbol(n: Six)
    ensures Value(Symbol(n)) == Some(n)
  {
  }

  lemma {:induction false} ValuesSymbols(x: seq<Six>)
    ensures Values(Symbols(x)) == Some(x)
  {
    if x != [] {
      ValueSymbol(x[0]);
      ValuesSymbols(x[1..]);
      assert Symbols(x)[1..] == Symbols(x[1..]);
      assert x == [x[0]] + x[1..];
    }
  }

  lemma {:induction false} SymbolsValues(s: Bytes)
    requires Values(s).Some?
    ensures Symbols(Values(s).value) == s
  {
    if s != [] {
      SymbolsValues(s[1..]);
    }
  }

  lemma SplitPair(high: nat, low: nat)
    ensures low < 16 ==> (high * 16 + low) / 16 == high && (high * 16 + low) % 16 == low
    ensures low < 4 ==> (high * 4 + low) / 4 == high && (high * 4 + low) % 4 == low
  {
  }

  lemma Split(b0: Byte, b1: Byte, b2: Byte)
    ensures Octet0(First(b0), Second(b0, b1)) == b0
    ensures Octet1(Second(b0, b1), Third(b1, b2)) == b1
    ensures Octet2(Third(b1, b2), Fourth(b2)) == b2
    ensures NoLowFour(Second(b0, 0)) && NoLowTwo(Third(b1, 0))
  {
    SplitPair(b0 % 4, b1 / 16);
    SplitPair(b1 % 16, b2 / 64);
  }

  lemma Join(x0: Six, x1: Six, x2: Six, x3: Six)
    ensures First(Octet0(x0, x1)) == x0
    ensures Second(Octet0(x0, x1), Octet1(x1, x2)) == x1
    ensures Third(Octet1(x1, x2), Octet2(x2, x3)) == x2
    ensures Fourth(Octet2(x2, x3)) == x3
    ensures NoLowFour(x1) ==> Second(Octet0(x0, x1), 0) == x1
    ensures NoLowTwo(x2) ==> Third(Octet1(x1, x2), 0) == x2
  {
    assert Octet0(x0, x1) % 4 == x1 / 16 && Octet1(x1, x2) / 16 == x1 % 16;
    assert Octet1(x1, x2) % 16 == x2 / 4 && Octet2(x2, x3) / 64 == x2 % 4;
  }

  lemma Displays(b: Bytes)
    ensures |b| == 1 ==> b == [b[0]]
    ensures |b| == 2 ==> b == [b[0], b[1]]
    ensures |b| > 2 ==> b == [b[0], b[1], b[2]] + b[3..]
  {
  }

  lemma OctetsSextetsOne(b0: Byte)
    ensures Octets(Sextets([b0])) == Some([b0])
  {
    assert Octet0(First(b0), Second(b0, 0)) == b0 && NoLowFour(Second(b0, 0));
    var x := [First(b0), Second(b0, 0)];
    assert Sextets([b0]) == x;
    assert x[0] == First(b0) && x[1] == Second(b0, 0);
  }

  lemma OctetsSextetsTwo(b0: Byte, b1: Byte)
    ensures Octets(Sextets([b0, b1])) == Some([b0, b1])
  {
    Split(b0, b1, 0);
    var x := [First(b0), Second(b0, b1), Third(b1, 0)];
    assert Sextets([b0, b1]) == x;
    assert x[0] == First(b0) && x[1] == Second(b0, b1) && x[2] == Third(b1, 0);
  }

  lemma {:induction false} OctetsSextets(b: Bytes)
    ensures Octets(Sextets(b)) == Some(b)
  {
    Displays(b);
    if |b| == 1 {
      OctetsSextetsOne(b[0]);
    } else if |b| == 2 {
      OctetsSextetsTwo(b[0], b[1]);
    } else if |b| > 2 {
      var x := Sextets(b);
      Split(b[0], b[1], b[2]);
      OctetsSextets(b[3..]);
      hide First, Second, Third, Fourth, Octet0, Octet1, Octet2, NoLowFour, NoLowTwo;
      assert x[..4] == [First(b[0]), Second(b[0], b[1]), Third(b[1], b[2]), Fourth(b[2])];
      assert x[4..] == Sextets(b[3..]);
    }
  }

  lemma {:induction false} SextetsOctets(x: seq<Six>)
    requires Octets(x).Some?
    ensures Sextets(Octets(x).value) == x
  {
    if |x| >= 2 {
      var x2 := if |x| > 2 then x[2] else 0;
      var x3 := if |x| > 3 then x[3] else 0;
      Join(x[0], x[1], x2, x3);
      hide First, Second, Third, Fourth, Octet0, Octet1, Octet2, NoLowFour, NoLowTwo;
      if |x| == 2 {
        assert x == [x[0], x[1]];
      } else if |x| == 3 {
        assert x == [x[0], x[1], x[2]];
      } else {
        SextetsOctets(x[4..]);
        assert Octets(x).value[3..] == Octets(x[4..]).value;
        assert x == [x[0], x[1], x[2], x[3]] + x[4..];
      }
    }
  }

  /** Table 2 of RFC 4648. */
  lemma Alphabet(n: Six)
    ensures n < 26 ==> Symbol(n) == 'A' as int + n
    ensures 26 <= n < 52 ==> Symbol(n) == 'a' as int + (n - 26)
    ensures 52 <= n < 62 ==> Symbol(n) == '0' as int + (n - 52)
    ensures Symbol(62) == '-' as int && Symbol(63) == '_' as int
  {
  }

  /** The byte at `i`, or zero past the end. */
  function ByteAt(b: Bytes, i: nat): int {
    if i < |b| then b[i] else 0
  }

  lemma Regroup(b0: Byte, b1: Byte, b2: Byte)
    ensures 0x1_0000 * b0 as int + 0x100 * b1 as int + b2 as int ==
            0x4_0000 * First(b0) as int + 0x1000 * Second(b0, b1) as int + 0x40 * Third(b1, b2) as int +
            Fourth(b2) as int
  {
    assert b0 as int == 4 * (b0 as int / 4) + b0 as int % 4;
    assert b1 as int == 16 * (b1 as int / 16) + b1 as int % 16;
    assert b2 as int == 64 * (b2 as int / 64) + b2 as int % 64;
  }

  /** Every group of three bytes, the last one filled up with zeros, reads as one
      number whose digits to the base 64 are the symbols, from the highest on; those
      of the zeros are left out. */
  lemma {:induction false} EncodesGroups(b: Bytes, g: nat) returns (x: seq<Six>)
    requires 3 * g < |b|
    ensures |x| == 4
    ensures 0x1_0000 * ByteAt(b, 3 * g) + 0x100 * ByteAt(b, 3 * g + 1) + ByteAt(b, 3 * g + 2)
            == 0x4_0000 * x[0] as int + 0x1000 * x[1] as int + 0x40 * x[2] as int + x[3] as int
    ensures forall i | 0 <= i < 4 && 4 * g + i < |Encode(b)| :: Encode(b)[4 * g + i] == Symbol(x[i])
  {
    hide First, Second, Third, Fourth, Symbol;
    if g == 0 {
      var b1, b2 := if |b| > 1 then b[1] else 0, if |b| > 2 then b[2] else 0;
      x := [First(b[0]), Second(b[0], b1), Third(b1, b2), Fourth(b2)];
      Regroup(b[0], b1, b2);
      forall i | 0 <= i < 4 && i < |Encode(b)| ensures Encode(b)[i] == Symbol(x[i]) {
        SymbolAt(Sextets(b), i);
      }
    } else {
      x := EncodesGroups(b[3..], g - 1);
      forall i | 0 <= i < 4 && 4 * g + i < |Encode(b)| ensures Encode(b)[4 * g + i] == Symbol(x[i]) {
        SymbolAt(Sextets(b), 4 * g + i);
        SymbolAt(Sextets(b[3..]), 4 * (g - 1) + i);
        assert Encode(b[3..])[4 * (g - 1) + i] == Symbol(x[i]);
      }
    }
  }

  lemma {:induction false} SymbolAt(x: seq<Six>, i: nat)
    requires i < |x|
    ensures Symbols(x)[i] == Symbol(x[i])
  {
    if i > 0 {
      SymbolAt(x[1..], i - 1);
    }
  }

  lemma DecodeEncode(b: Bytes)
    ensures Decode(Encode(b)) == Some(b)
  {
    ValuesSymbols(Sextets(b));
    OctetsSextets(b);
  }

  /** Every accepted string is the canonical encoding of what it decodes to. */
  lemma EncodeDecode(s: Bytes)
    requires Decode(s).Some?
    ensures Encode(Decode(s).value) == s
  {
    SymbolsValues(s);
    SextetsOctets(Values(s).value);
  }
}
