/** Reading a GUID from its text (samples/meiuuid.c:13-66; the text form is that of RFC 4122, section 3). */
module MeiUuid {
  import opened HeciRegisters
  import opened Wrappers

  type Half = x: int | 0 <= x < 0x1_0000

  datatype Uuid = Uuid(l: Word, w1: Half, w2: Half, b: EightBytes)

  type EightBytes = s: seq<Byte> | |s| == 8 witness [0, 0, 0, 0, 0, 0, 0, 0]

  const TEXT_LENGTH := 36

  /** What strtoul gives for a number too large; the width of a long is the platform's. */
  type LongMax = m: nat | m >= 0xFFFF_FFFF witness 0xFFFF_FFFF

  predicate IsHex(c: char) {
    '0' <= c <= '9' || 'a' <= c <= 'f' || 'A' <= c <= 'F'
  }

  function Digit(c: char): (d: nat)
    requires IsHex(c)
    ensures d < 16
  {
    if c <= '9' then c as int - '0' as int
    else if c <= 'F' then c as int - 'A' as int + 10
    else c as int - 'a' as int + 10
  }

  function DigitText(d: nat): (c: char)
    requires d < 16
    ensures IsHex(c) && Digit(c) == d
  {
    if d < 10 then ('0' as int + d) as char else ('a' as int + d - 10) as char
  }

  predicate AllHex(s: string) {
    forall i :: 0 <= i < |s| ==> IsHex(s[i])
  }

  /** The digits that strtoul reads before it stops. */
  function HexPrefix(s: string): (p: string)
    ensures AllHex(p) && p <= s && (|p| < |s| ==> !IsHex(s[|p|]))
  {
    if s == [] || !IsHex(s[0]) then [] else [s[0]] + HexPrefix(s[1..])
  }

  function Number(s: string): nat
    requires AllHex(s)
  {
    if s == [] then 0 else 16 * Number(s[..|s| - 1]) + Digit(s[|s| - 1])
  }

  function StrToUl(s: string, max: LongMax): nat {
    if Number(HexPrefix(s)) > max then max else Number(HexPrefix(s))
  }

  predicate IsDashPlace(i: int) {
    i == 8 || i == 13 || i == 18 || i == 23
  }

  /** What the validator lets through: it demands no dash anywhere, and allows one only in its four places. */
  predicate Accepted(t: string) {
    && |t| == TEXT_LENGTH
    && forall i :: 0 <= i < TEXT_LENGTH ==> IsHex(t[i]) || (t[i] == '-' && IsDashPlace(i))
  }

  predicate Canonical(t: string) {
    && |t| == TEXT_LENGTH
    && forall i :: 0 <= i < TEXT_LENGTH ==> if IsDashPlace(i) then t[i] == '-' else IsHex(t[i])
  }

  /** Where the text of byte `k` begins. */
  function BytePlace(k: nat): (p: nat)
    requires k < 8
    ensures p + 1 < TEXT_LENGTH && !IsDashPlace(p) && !IsDashPlace(p + 1)
  {
    if k < 2 then 19 + 2 * k else 20 + 2 * k
  }

  function ByteAt(t: string, k: nat): (b: Byte)
    requires Accepted(t) && k < 8
  {
    PairIsByte(t[BytePlace(k)..BytePlace(k) + 2]);
    Number(t[BytePlace(k)..BytePlace(k) + 2])
  }

  lemma PairIsByte(s: string)
    requires |s| == 2 && AllHex(s)
    ensures Number(s) == 16 * Digit(s[0]) + Digit(s[1]) < 0x100
  {
    assert Number(s[..1][..0]) == 0;
  }

  function ParsedBytes(t: string): (b: EightBytes)
    requires Accepted(t)
    ensures forall k :: 0 <= k < 8 ==> b[k] == ByteAt(t, k)
  {
    [ByteAt(t, 0), ByteAt(t, 1), ByteAt(t, 2), ByteAt(t, 3), ByteAt(t, 4), ByteAt(t, 5), ByteAt(t, 6), ByteAt(t, 7)]
  }

  // assignment of an unsigned long to a narrower field

  function CutTo32(n: nat): (w: Word)
    ensures n < 0x1_0000_0000 ==> w == n
  {
    n % 0x1_0000_0000
  }

  function CutTo16(n: nat): (w: Half)
    ensures n < 0x1_0000 ==> w == n
  {
    n % 0x1_0000
  }

  /** The number that the reader makes of an accepted text: each word field runs on to the next dash. */
  function Parsed(t: string, max: LongMax): Uuid
    requires Accepted(t)
  {
    Uuid(CutTo32(StrToUl(t, max)), CutTo16(StrToUl(t[9..], max)), CutTo16(StrToUl(t[14..], max)), ParsedBytes(t))
  }

  method Parse(str: string, max: LongMax) returns (r: Option<Uuid>)
    ensures r == if Accepted(str) then Some(Parsed(str, max)) else None
  {
    if |str| != TEXT_LENGTH {
      return None;
    }
    var i := 0;
    while i < TEXT_LENGTH
      invariant 0 <= i <= TEXT_LENGTH
      invariant forall k :: 0 <= k < i ==> IsHex(str[k]) || (str[k] == '-' && IsDashPlace(k))
    {
      if str[i] == '-' {
        if !IsDashPlace(i) {
          return None;
        }
      } else if !IsHex(str[i]) {
        return None;
      }
      i := i + 1;
    }
    assert Accepted(str);
    var a, b, c := StrToUl(str, max), StrToUl(str[9..], max), StrToUl(str[14..], max);
    var d := ReadBytes(str, max, 19, 0, 2);
    var e := ReadBytes(str, max, 24, 2, 6);
    EightInOrder(ParsedBytes(str), d[..], e[..]);
    r := Some(Uuid(CutTo32(a), CutTo16(b), CutTo16(c), [d[0], d[1], e[0], e[1], e[2], e[3], e[4], e[5]]));
  }

  lemma EightInOrder(b: EightBytes, d: seq<Byte>, e: seq<Byte>)
    requires d == b[0..2] && e == b[2..8]
    ensures [d[0], d[1], e[0], e[1], e[2], e[3], e[4], e[5]] == b
  {}

  /** Byte `k`, from its two digits at `at`. */
  method ReadPair(str: string, max: LongMax, at: nat, ghost k: nat) returns (b: Byte)
    requires Accepted(str) && k < 8 && at == BytePlace(k)
    ensures b == ByteAt(str, k)
  {
    var buf := str[at..at + 2];
    PairReadsByte(str, max, k);
    b := StrToUl(buf, max);
  }

  /** The loops that fill `d` and `e`: `count` bytes from position `from`, the first of them byte `first`. */
  method ReadBytes(str: string, max: LongMax, from: nat, first: nat, count: nat) returns (d: array<Byte>)
    requires Accepted(str) && ((first == 0 && from == 19 && count == 2) || (first == 2 && from == 24 && count == 6))
    ensures fresh(d) && d[..] == ParsedBytes(str)[first..first + count]
  {
    d := new Byte[count];
    var i := 0;
    while i < count
      invariant 0 <= i <= count
      invariant forall k :: 0 <= k < i ==> d[k] == ByteAt(str, first + k)
    {
      d[i] := ReadPair(str, max, from + i * 2, first + i);
      i := i + 1;
    }
    BytesArePart(str, d[..], first);
  }

  lemma BytesArePart(t: string, d: seq<Byte>, first: nat)
    requires Accepted(t) && first + |d| <= 8 && forall k :: 0 <= k < |d| ==> d[k] == ByteAt(t, first + k)
    ensures d == ParsedBytes(t)[first..first + |d|]
  {}

  lemma PairReadsByte(str: string, max: LongMax, k: nat)
    requires Accepted(str) && k < 8
    ensures StrToUl(str[BytePlace(k)..BytePlace(k) + 2], max) == ByteAt(str, k)
  {
    var buf := str[BytePlace(k)..BytePlace(k) + 2];
    PairIsByte(buf);
    WholePrefix(buf);
  }

  lemma WholePrefix(s: string)
    requires AllHex(s)
    ensures HexPrefix(s) == s
  {}

  // ---- the canonical text ----

  function HexText(v: nat, n: nat): (s: string)
    ensures |s| == n && AllHex(s)
  {
    if n == 0 then "" else HexText(v / 16, n - 1) + [DigitText(v % 16)]
  }

  function WordsText(g: Uuid): (t: string)
    ensures |t| == 19 && t[..8] == HexText(g.l, 8) && t[9..13] == HexText(g.w1, 4) && t[14..18] == HexText(g.w2, 4)
    ensures t[8] == t[13] == t[18] == '-'
  {
    HexText(g.l, 8) + "-" + HexText(g.w1, 4) + "-" + HexText(g.w2, 4) + "-"
  }

  function BytesText(b: seq<Byte>): (t: string)
    ensures |t| == 2 * |b| && forall k :: 0 <= k < |b| ==> t[2 * k..2 * k + 2] == HexText(b[k], 2)
  {
    if b == [] then ""
    else
      var t := BytesText(b[..|b| - 1]);
      var last := HexText(b[|b| - 1], 2);
      assert forall k :: 0 <= k < |b| - 1 ==> (t + last)[2 * k..2 * k + 2] == t[2 * k..2 * k + 2];
      t + last
  }

  function Format(g: Uuid): (t: string)
    ensures |t| == TEXT_LENGTH
  {
    WordsText(g) + BytesText(g.b[..2]) + "-" + BytesText(g.b[2..])
  }

  lemma PartsOf(a: string, b: string, c: string, d: string)
    requires |a| == 19 && |b| == 4 && |c| == 1
    ensures var t := a + b + c + d; t[..19] == a && t[19..23] == b && t[23] == c[0] && t[24..] == d
  {}

  lemma FormatParts(g: Uuid)
    ensures var t := Format(g);
      t[..19] == WordsText(g) && t[19..23] == BytesText(g.b[..2]) && t[23] == '-' && t[24..] == BytesText(g.b[2..])
  {
    PartsOf(WordsText(g), BytesText(g.b[..2]), "-", BytesText(g.b[2..]));
  }

  function LowerChar(c: char): char {
    if IsHex(c) then DigitText(Digit(c)) else c
  }

  function Lower(t: string): (u: string)
    ensures |u| == |t| && forall i :: 0 <= i < |t| ==> u[i] == LowerChar(t[i])
  {
    seq(|t|, i requires 0 <= i < |t| => LowerChar(t[i]))
  }

  function Power16(n: nat): nat {
    if n == 0 then 1 else 16 * Power16(n - 1)
  }

  lemma {:induction false} NumberFits(s: string)
    requires AllHex(s)
    ensures Number(s) < Power16(|s|)
  {
    if s == [] {
    } else {
      NumberFits(s[..|s| - 1]);
    }
  }

  lemma SplitDigit(m: nat, d: nat)
    requires d < 16
    ensures (16 * m + d) / 16 == m && (16 * m + d) % 16 == d
  {}

  lemma LowerLast(s: string)
    requires s != []
    ensures Lower(s) == Lower(s[..|s| - 1]) + [LowerChar(s[|s| - 1])]
  {}

  lemma {:induction false} TextOfNumber(s: string)
    requires AllHex(s)
    ensures HexText(Number(s), |s|) == Lower(s)
  {
    if s == [] {
    } else {
      var before, last := s[..|s| - 1], s[|s| - 1];
      TextOfNumber(before);
      SplitDigit(Number(before), Digit(last));
      LowerLast(s);
    }
  }

  lemma {:induction false} NumberOfText(v: nat, n: nat)
    requires v < Power16(n)
    ensures Number(HexText(v, n)) == v
  {
    if n == 0 {
    } else {
      NumberOfText(v / 16, n - 1);
      assert HexText(v, n)[..n - 1] == HexText(v / 16, n - 1);
    }
  }

  lemma {:induction false} StopsAtDash(s: string, n: nat)
    requires n < |s| && AllHex(s[..n]) && s[n] == '-'
    ensures HexPrefix(s) == s[..n]
  {
    if n == 0 {
    } else {
      assert s[..n][0] == s[0];
      assert s[1..][..n - 1] == s[..n][1..];
      StopsAtDash(s[1..], n - 1);
      assert s[..n] == [s[0]] + s[1..][..n - 1];
    }
  }

  lemma Powers()
    ensures Power16(2) == 0x100 && Power16(4) == 0x1_0000 && Power16(8) == 0x1_0000_0000
  {
    assert Power16(3) == 0x1000 && Power16(6) == 0x100_0000;
  }

  lemma FieldExact(s: string, n: nat, max: LongMax)
    requires (n == 4 || n == 8) && n < |s| && AllHex(s[..n]) && s[n] == '-'
    ensures StrToUl(s, max) == Number(s[..n]) < Power16(n)
  {
    Powers();
    StopsAtDash(s, n);
    NumberFits(s[..n]);
  }

  /** What a reader should make of the text: each field is the number that its digits spell. */
  predicate Spells(t: string, g: Uuid)
    requires Accepted(t) && Canonical(t)
  {
    && g.l == Number(t[..8]) && g.w1 == Number(t[9..13]) && g.w2 == Number(t[14..18])
    && forall k :: 0 <= k < 8 ==> g.b[k] == ByteAt(t, k)
  }

  lemma WordsAsSpelt(t: string, max: LongMax)
    requires Canonical(t)
    ensures StrToUl(t, max) == Number(t[..8]) < 0x1_0000_0000
    ensures StrToUl(t[9..], max) == Number(t[9..13]) < 0x1_0000
    ensures StrToUl(t[14..], max) == Number(t[14..18]) < 0x1_0000
  {
    Powers();
    FieldExact(t, 8, max);
    assert t[9..][..4] == t[9..13];
    FieldExact(t[9..], 4, max);
    assert t[14..][..4] == t[14..18];
    FieldExact(t[14..], 4, max);
  }

  /** A canonical text is read to the dashes, and nothing saturates or is cut off. */
  lemma ReadsAsSpelt(t: string, max: LongMax)
    requires Canonical(t)
    ensures Accepted(t) && Spells(t, Parsed(t, max))
  {
    WordsAsSpelt(t, max);
  }

  lemma SpeltOnce(t: string, g: Uuid, h: Uuid)
    requires Canonical(t) && Accepted(t) && Spells(t, g) && Spells(t, h)
    ensures g == h
  {
    assert g.b == h.b by {
      assert forall k :: 0 <= k < 8 ==> g.b[k] == ByteAt(t, k) == h.b[k];
    }
  }

  lemma PairOfFormat(g: Uuid, k: nat)
    requires k < 8
    ensures var p := BytePlace(k); Format(g)[p..p + 2] == HexText(g.b[k], 2)
  {
    var t, p := Format(g), BytePlace(k);
    FormatParts(g);
    if k < 2 {
      assert t[p..p + 2] == t[19..23][2 * k..2 * k + 2];
    } else {
      assert t[p..p + 2] == t[24..][2 * (k - 2)..2 * (k - 2) + 2];
    }
  }

  lemma PlaceOfPair(i: nat) returns (k: nat)
    requires (19 <= i < TEXT_LENGTH) && i != 23
    ensures k < 8 && (i == BytePlace(k) || i == BytePlace(k) + 1)
  {
    k := if i < 23 then (i - 19) / 2 else (i - 20) / 2;
  }

  /** The written form has dashes in the four places and digits everywhere else. */
  lemma FormatIsCanonical(g: Uuid)
    ensures Canonical(Format(g))
  {
    var t := Format(g);
    FormatParts(g);
    forall i | 0 <= i < TEXT_LENGTH
      ensures if IsDashPlace(i) then t[i] == '-' else IsHex(t[i])
    {
      if i < 19 {
        assert t[i] == t[..19][i];
        WordsAreCanonical(g, i);
      } else if i != 23 {
        var k := PlaceOfPair(i);
        PairOfFormat(g, k);
        assert t[i] == t[BytePlace(k)..BytePlace(k) + 2][i - BytePlace(k)];
      }
    }
  }

  lemma WordsAreCanonical(g: Uuid, i: nat)
    requires i < 19
    ensures if IsDashPlace(i) then WordsText(g)[i] == '-' else IsHex(WordsText(g)[i])
  {
    var t := WordsText(g);
    if i < 8 {
      assert t[i] == t[..8][i];
    } else if 8 < i < 13 {
      assert t[i] == t[9..13][i - 9];
    } else if 13 < i < 18 {
      assert t[i] == t[14..18][i - 14];
    }
  }

  lemma ByteReadsBack(g: Uuid, k: nat)
    requires k < 8 && Accepted(Format(g))
    ensures ByteAt(Format(g), k) == g.b[k]
  {
    Powers();
    PairOfFormat(g, k);
    NumberOfText(g.b[k], 2);
  }

  lemma FormatSpells(g: Uuid)
    ensures Canonical(Format(g)) && Accepted(Format(g)) && Spells(Format(g), g)
  {
    FormatIsCanonical(g);
    var t := Format(g);
    FormatParts(g);
    assert t[..8] == WordsText(g)[..8] && t[9..13] == WordsText(g)[9..13] && t[14..18] == WordsText(g)[14..18];
    WordNumbers(g);
    forall k | 0 <= k < 8
      ensures ByteAt(t, k) == g.b[k]
    {
      ByteReadsBack(g, k);
    }
  }

  lemma WordNumbers(g: Uuid)
    ensures Number(HexText(g.l, 8)) == g.l && Number(HexText(g.w1, 4)) == g.w1 && Number(HexText(g.w2, 4)) == g.w2
  {
    Powers();
    NumberOfText(g.l, 8);
    NumberOfText(g.w1, 4);
    NumberOfText(g.w2, 4);
  }

  /** Reading what was written gives the GUID back, for every GUID. */
  lemma RoundTrip(g: Uuid, max: LongMax)
    ensures Accepted(Format(g)) && Parsed(Format(g), max) == g
  {
    FormatSpells(g);
    ReadsAsSpelt(Format(g), max);
    SpeltOnce(Format(g), g, Parsed(Format(g), max));
  }

  lemma LowerSlice(t: string, i: nat, j: nat)
    requires i <= j <= |t|
    ensures Lower(t)[i..j] == Lower(t[i..j])
  {}

  lemma ByteWritesBack(t: string, k: nat)
    requires Canonical(t) && Accepted(t) && k < 8
    ensures HexText(ByteAt(t, k), 2) == Lower(t)[BytePlace(k)..BytePlace(k) + 2]
  {
    var p := BytePlace(k);
    TextOfNumber(t[p..p + 2]);
    LowerSlice(t, p, p + 2);
  }

  lemma FieldWritesBack(t: string, i: nat, j: nat)
    requires i <= j <= |t| && AllHex(t[i..j])
    ensures HexText(Number(t[i..j]), j - i) == Lower(t)[i..j]
  {
    TextOfNumber(t[i..j]);
    LowerSlice(t, i, j);
  }

  lemma FieldsWriteBack(t: string, g: Uuid)
    requires Canonical(t) && Accepted(t) && Spells(t, g)
    ensures HexText(g.l, 8) == Lower(t)[0..8] && HexText(g.w1, 4) == Lower(t)[9..13] && HexText(g.w2, 4) == Lower(t)[14..18]
  {
    assert t[..8] == t[0..8];
    FieldWritesBack(t, 0, 8);
    FieldWritesBack(t, 9, 13);
    FieldWritesBack(t, 14, 18);
  }

  lemma WordsWriteBack(t: string, g: Uuid)
    requires Canonical(t) && Accepted(t) && Spells(t, g)
    ensures WordsText(g) == Lower(t)[..19]
  {
    var u := Lower(t);
    FieldsWriteBack(t, g);
    CutAtDashes(u);
    FieldsMakeWords(g, u[0..8], u[9..13], u[14..18]);
  }

  lemma FieldsMakeWords(g: Uuid, a: string, b: string, c: string)
    requires a == HexText(g.l, 8) && b == HexText(g.w1, 4) && c == HexText(g.w2, 4)
    ensures WordsText(g) == a + "-" + b + "-" + c + "-"
  {}

  lemma CutAtDashes(u: string)
    requires |u| >= 19 && u[8] == '-' && u[13] == '-' && u[18] == '-'
    ensures u[..19] == u[0..8] + "-" + u[9..13] + "-" + u[14..18] + "-"
  {}

  lemma BytesWriteBack(t: string, g: Uuid, i: nat)
    requires Canonical(t) && Accepted(t) && Spells(t, g) && 19 <= i < TEXT_LENGTH && i != 23
    ensures Format(g)[i] == Lower(t)[i]
  {
    var k := PlaceOfPair(i);
    ByteWritesBack(t, k);
    PairOfFormat(g, k);
    var p := BytePlace(k);
    assert Format(g)[i] == Format(g)[p..p + 2][i - p];
    assert Lower(t)[i] == Lower(t)[p..p + 2][i - p];
  }

  lemma SpeltWritesBack(t: string, g: Uuid)
    requires Canonical(t) && Accepted(t) && Spells(t, g)
    ensures Format(g) == Lower(t)
  {
    var f := Format(g);
    FormatParts(g);
    WordsWriteBack(t, g);
    forall i | 0 <= i < TEXT_LENGTH
      ensures f[i] == Lower(t)[i]
    {
      if i < 19 {
        assert f[i] == f[..19][i] && Lower(t)[i] == Lower(t)[..19][i];
      } else if i != 23 {
        BytesWriteBack(t, g, i);
      }
    }
  }

  /** An accepted text means the GUID that it spells exactly when its four dashes are in place. The texts let through with
      a digit in place of a dash are read as some other text's GUID. */
  lemma SpellsIffCanonical(t: string, max: LongMax)
    requires Accepted(t)
    ensures Format(Parsed(t, max)) == Lower(t) <==> Canonical(t)
  {
    if Canonical(t) {
      ReadsAsSpelt(t, max);
      SpeltWritesBack(t, Parsed(t, max));
    } else {
      NotWritten(t, Parsed(t, max));
    }
  }

  lemma NotWritten(t: string, g: Uuid)
    requires Accepted(t) && !Canonical(t)
    ensures Format(g) != Lower(t)
  {
    FormatIsCanonical(g);
    var i :| 0 <= i < TEXT_LENGTH && !(if IsDashPlace(i) then t[i] == '-' else IsHex(t[i]));
    assert Format(g)[i] == '-' && IsHex(Lower(t)[i]);
  }
}
