/** The UTF-8 checker of `src/util/misc.c` against the grammar of section 4 of RFC 3629. */
module Utf8 {

  type Byte = b: int | 0 <= b < 256

  // ----- The grammar

  predicate Tail(b: Byte) {
    0x80 <= b <= 0xBF
  }

  /** The encoding of one character. */
  predicate Sequence(c: seq<Byte>) {
    match |c|
    case 1 => c[0] <= 0x7F
    case 2 => 0xC2 <= c[0] <= 0xDF && Tail(c[1])
    case 3 =>
      && Tail(c[2])
      && (|| (c[0] == 0xE0 && 0xA0 <= c[1] <= 0xBF)
          || (0xE1 <= c[0] <= 0xEC && Tail(c[1]))
          || (c[0] == 0xED && 0x80 <= c[1] <= 0x9F)
          || (0xEE <= c[0] <= 0xEF && Tail(c[1])))
    case 4 =>
      && Tail(c[2]) && Tail(c[3])
      && (|| (c[0] == 0xF0 && 0x90 <= c[1] <= 0xBF)
          || (0xF1 <= c[0] <= 0xF3 && Tail(c[1]))
          || (c[0] == 0xF4 && 0x80 <= c[1] <= 0x8F))
    case _ => false
  }

  /** A concatenation of encoded characters. */
  ghost predicate Valid(s: seq<Byte>)
    decreases |s|
  {
    s == [] || exists n :: 1 <= n <= |s| && Sequence(s[..n]) && Valid(s[n..])
  }

  // ----- The grammar describes the encodings of the scalar values and nothing else

  predicate Scalar(v: int) {
    0 <= v <= 0x10FFFF && !(0xD800 <= v <= 0xDFFF)
  }

  function Encode(v: int): (c: seq<Byte>)
    requires Scalar(v)
  {
    if v < 0x80 then [v]
    else if v < 0x800 then [0xC0 + v / 64, Low(v)]
    else if v < 0x10000 then [0xE0 + v / 64 / 64, Low(v / 64), Low(v)]
    else [0xF0 + v / 64 / 64 / 64, Low(v / 64 / 64), Low(v / 64), Low(v)]
  }

  /** A byte with the lowest six bits of a value. */
  function Low(v: int): Byte {
    0x80 + v % 64
  }

  /** A value with six more bits. */
  function Shift(v: int, b: int): int {
    v * 64 + (b - 0x80)
  }

  function Decode(c: seq<Byte>): int
    requires Sequence(c)
  {
    match |c|
    case 1 => c[0]
    case 2 => Shift(c[0] - 0xC0, c[1])
    case 3 => Shift(Shift(c[0] - 0xE0, c[1]), c[2])
    case _ => Shift(Shift(Shift(c[0] - 0xF0, c[1]), c[2]), c[3])
  }

  lemma LowShift(v: int, b: Byte)
    requires Tail(b) && v >= 0
    ensures Low(Shift(v, b)) == b && Shift(v, b) / 64 == v
  {}

  lemma ShiftLow(v: int)
    requires v >= 0
    ensures Shift(v / 64, Low(v)) == v
  {}

  lemma ThreeParts(a: nat, b: Byte, c: Byte)
    requires Tail(b) && Tail(c)
    ensures var v := Shift(Shift(a, b), c); Low(v) == c && Low(v / 64) == b && v / 64 / 64 == a
  {
    LowShift(a, b);
    LowShift(Shift(a, b), c);
  }

  lemma FourParts(a: nat, b: Byte, c: Byte, d: Byte)
    requires Tail(b) && Tail(c) && Tail(d)
    ensures var v := Shift(Shift(Shift(a, b), c), d);
            Low(v) == d && Low(v / 64) == c && Low(v / 64 / 64) == b && v / 64 / 64 / 64 == a
  {
    ThreeParts(a, b, c);
    LowShift(Shift(Shift(a, b), c), d);
  }

  /** The values of the longer sequences: none that a shorter one has, no surrogate, nothing above U+10FFFF. */
  lemma SequenceValue(c: seq<Byte>)
    requires Sequence(c)
    ensures Scalar(Decode(c))
    ensures |c| == if Decode(c) < 0x80 then 1 else if Decode(c) < 0x800 then 2 else if Decode(c) < 0x10000 then 3 else 4
  {}

  lemma SequenceBytes(c: seq<Byte>)
    requires Sequence(c)
    ensures 1 <= |c| <= 4 && forall i :: 1 <= i < |c| ==> Tail(c[i])
    ensures c[0] >= if |c| == 1 then 0 else if |c| == 2 then 0xC0 else if |c| == 3 then 0xE0 else 0xF0
  {}

  /** No overlong form, no surrogate and nothing above U+10FFFF is in the grammar. */
  lemma DecodeEncode(c: seq<Byte>)
    requires Sequence(c)
    ensures Scalar(Decode(c)) && Encode(Decode(c)) == c
  {
    hide Sequence, Tail, Scalar, Low, Shift;
    SequenceValue(c);
    SequenceBytes(c);
    match |c|
    case 1 => assert Encode(Decode(c)) == [c[0]];
    case 2 =>
      LowShift(c[0] - 0xC0, c[1]);
      assert Encode(Decode(c)) == [c[0], c[1]];
    case 3 =>
      ThreeParts(c[0] - 0xE0, c[1], c[2]);
      assert Encode(Decode(c)) == [c[0], c[1], c[2]];
    case _ =>
      FourParts(c[0] - 0xF0, c[1], c[2], c[3]);
      assert Encode(Decode(c)) == [c[0], c[1], c[2], c[3]];
  }

  /** Every scalar value has an encoding in the grammar. */
  lemma EncodeDecode(v: int)
    requires Scalar(v)
    ensures Sequence(Encode(v)) && Decode(Encode(v)) == v
  {
    ShiftLow(v);
    ShiftLow(v / 64);
    ShiftLow(v / 64 / 64);
  }

  // ----- The state of the checker

  /** The next `due` bytes continue a character and valid text follows. */
  ghost predicate Continues(s: seq<Byte>, due: nat) {
    due <= |s| && (forall i :: 0 <= i < due ==> Tail(s[i])) && Valid(s[due..])
  }

  /** The number of continuation bytes a lead byte announces; 4 for a byte that cannot lead. */
  function Announced(b: Byte): nat {
    if b < 0xC0 then 0 else if b < 0xE0 then 1 else if b < 0xF0 then 2 else if b < 0xF8 then 3 else 4
  }

  /** What the checker asks of a lead byte and the byte behind it. */
  predicate LeadIsGood(s: seq<Byte>)
    requires s != []
  {
    var n, b := Announced(s[0]), s[0];
    && 1 <= n <= 3 && n < |s|
    && (n == 1 ==> b >= 0xC2)
    && (n == 2 ==> !(b == 0xE0 && s[1] < 0xA0) && !(b == 0xED && s[1] > 0x9F))
    && (n == 3 ==> !(b == 0xF0 && s[1] < 0x90) && b <= 0xF4 && !(b == 0xF4 && s[1] > 0x8F))
  }

  lemma SequenceLength(c: seq<Byte>)
    requires Sequence(c) && c[0] >= 0x80
    ensures |c| == 1 + Announced(c[0]) && LeadIsGood(c) && forall i :: 1 <= i < |c| ==> Tail(c[i])
  {}

  lemma LeadMakesSequence(c: seq<Byte>)
    requires c != [] && LeadIsGood(c) && |c| == 1 + Announced(c[0]) && forall i :: 1 <= i < |c| ==> Tail(c[i])
    ensures Sequence(c)
  {}

  /** Text that starts with a lead byte is valid exactly when the lead byte is good and the announced bytes follow. */
  lemma ValidFromLead(s: seq<Byte>)
    requires s != [] && s[0] >= 0x80
    ensures Valid(s) <==> LeadIsGood(s) && Continues(s[1..], Announced(s[0]))
  {
    if Valid(s) {
      var n :| 1 <= n <= |s| && Sequence(s[..n]) && Valid(s[n..]);
      SequenceLength(s[..n]);
      assert s[1..][n - 1..] == s[n..];
      forall i | 0 <= i < n - 1 ensures Tail(s[1..][i]) {
        assert s[1..][i] == s[..n][i + 1];
      }
    }
    if LeadIsGood(s) && Continues(s[1..], Announced(s[0])) {
      var n := 1 + Announced(s[0]);
      assert s[1..][n - 1..] == s[n..];
      forall i | 1 <= i < n ensures Tail(s[..n][i]) {
        assert s[..n][i] == s[1..][i - 1];
      }
      LeadMakesSequence(s[..n]);
    }
  }

  lemma ValidFromAscii(s: seq<Byte>)
    requires s != [] && s[0] < 0x80
    ensures Valid(s) <==> Valid(s[1..])
  {
    if Valid(s) {
      var n :| 1 <= n <= |s| && Sequence(s[..n]) && Valid(s[n..]);
      assert n == 1;
    }
    assert Sequence(s[..1]);
  }

  lemma ContinuesStep(s: seq<Byte>, due: nat)
    requires s != [] && due > 0
    ensures Continues(s, due) <==> Tail(s[0]) && Continues(s[1..], due - 1)
  {
    if due <= |s| {
      assert s[1..][due - 1..] == s[due..];
    }
    if Tail(s[0]) && Continues(s[1..], due - 1) {
      forall i | 0 <= i < due ensures Tail(s[i]) {
        assert i > 0 ==> s[i] == s[1..][i - 1];
      }
    }
  }

  // ----- The code

  /** Whether a byte has the bit of the value `mask`. */
  predicate Has(b: Byte, mask: int)
    requires mask > 0
  {
    b / mask % 2 == 1
  }

  /** Counts the ones behind the first bit; `mask` is the bit the count stops at. */
  method CountOnes(b: Byte) returns (due: nat, mask: int)
    requires b >= 0x80
    ensures mask > 0 && due <= 3
    ensures Has(b, mask) <==> Announced(b) == 4
    ensures Announced(b) < 4 ==> due == Announced(b)
  {
    due, mask := 0, 0x40;
    while mask > 0x08
      invariant mask in {0x40, 0x20, 0x10, 0x08}
      invariant due == (if mask == 0x40 then 0 else if mask == 0x20 then 1 else if mask == 0x10 then 2 else 3)
      invariant b >= 0x100 - 2 * mask
    {
      if !Has(b, mask) {
        break;
      }
      due := due + 1;
      mask := mask / 2;
    }
  }

  /** The tests of a lead byte. */
  method CheckLead(s: seq<Byte>, pos: nat) returns (ok: bool, due: nat)
    requires pos < |s| && s[pos] >= 0x80
    ensures ok <==> LeadIsGood(s[pos..])
    ensures ok ==> due == Announced(s[pos])
  {
    var mask;
    due, mask := CountOnes(s[pos]);
    if Has(s[pos], mask) || pos + due >= |s| {
      return false, due;
    }
    match due {
      case 0 => return false, due;
      case 1 =>
        if s[pos] < 0xC2 {
          return false, due;
        }
      case 2 =>
        if s[pos] == 0xE0 && s[pos + 1] < 0xA0 {
          return false, due;
        }
        if s[pos] == 0xED && s[pos + 1] > 0x9F {
          return false, due;
        }
      case _ =>
        if s[pos] == 0xF0 && s[pos + 1] < 0x90 {
          return false, due;
        }
        if s[pos] > 0xF4 {
          return false, due;
        }
        if s[pos] == 0xF4 && s[pos + 1] > 0x8F {
          return false, due;
        }
    }
    return true, due;
  }

  /** The checker accepts exactly the concatenations of encoded characters. */
  method IsValid(s: seq<Byte>) returns (ok: bool)
    ensures ok <==> Valid(s)
  {
    var due, pos := 0, 0;
    while pos < |s|
      invariant 0 <= pos <= |s| && pos + due <= |s|
      invariant Valid(s) <==> Continues(s[pos..], due)
    {
      assert s[pos..][1..] == s[pos + 1..];
      if due > 0 {
        ContinuesStep(s[pos..], due);
        if 0x80 <= s[pos] < 0xC0 {
          due := due - 1;
        } else {
          return false;
        }
      } else if s[pos] >= 0x80 {
        ValidFromLead(s[pos..]);
        var good, n := CheckLead(s, pos);
        if !good {
          return false;
        }
        due := n;
      } else {
        ValidFromAscii(s[pos..]);
      }
      pos := pos + 1;
    }
    return true;
  }

  // ----- Printable text

  predicate Printable(b: Byte) {
    (b >= 32 && b != 0x7F) || b == 9 || b == 13 || b == 10
  }

  ghost predicate PrintableText(s: seq<Byte>) {
    (forall i :: 0 <= i < |s| ==> Printable(s[i])) && Valid(s)
  }

  lemma Prefixed(c: seq<Byte>, s: seq<Byte>, whole: seq<Byte>)
    requires Sequence(c) && Valid(s) && whole == c + s
    ensures Valid(whole)
  {
    assert whole[..|c|] == c && whole[|c|..] == s;
  }

  lemma Reattached(a: seq<Byte>, b: seq<Byte>, n: nat)
    requires n <= |a|
    ensures a + b == a[..n] + (a[n..] + b)
  {}

  /** Valid text stays valid when more of it follows. */
  lemma {:induction false} ValidConcat(a: seq<Byte>, b: seq<Byte>)
    requires Valid(a) && Valid(b)
    ensures Valid(a + b)
    decreases |a|
  {
    if a == [] {
      assert a + b == b;
    } else {
      var n :| 1 <= n <= |a| && Sequence(a[..n]) && Valid(a[n..]);
      ValidConcat(a[n..], b);
      Reattached(a, b, n);
      Prefixed(a[..n], a[n..] + b, a + b);
    }
  }

  // ----- Printable text is the encoding of readable characters

  /** The characters that may stand in a message: no control characters but tab, newline and return. */
  predicate Readable(v: int) {
    Scalar(v) && (v == 9 || v == 10 || v == 13 || (v >= 32 && v != 127))
  }

  ghost predicate AllScalar(vs: seq<int>) {
    forall i :: 0 <= i < |vs| ==> Scalar(vs[i])
  }

  ghost predicate AllReadable(vs: seq<int>) {
    forall i :: 0 <= i < |vs| ==> Readable(vs[i])
  }

  /** The encoding of a text. */
  ghost function Spell(vs: seq<int>): seq<Byte>
    requires AllScalar(vs)
  {
    if vs == [] then [] else Encode(vs[0]) + Spell(vs[1..])
  }

  /** A single character is printable exactly when it is readable, whatever its length in bytes. */
  lemma PrintableScalar(v: int)
    requires Scalar(v)
    ensures PrintableText(Encode(v)) <==> Readable(v)
  {
    var c := Encode(v);
    EncodeDecode(v);
    assert c + [] == c;
    Prefixed(c, [], c);
    assert v < 0x80 ==> c[0] == v;
  }

  lemma PrintableConcat(a: seq<Byte>, b: seq<Byte>)
    requires Valid(a) && Valid(b)
    ensures PrintableText(a + b) <==> PrintableText(a) && PrintableText(b)
  {
    ValidConcat(a, b);
    var s := a + b;
    assert forall i :: 0 <= i < |a| ==> s[i] == a[i];
    assert forall i :: 0 <= i < |b| ==> s[|a| + i] == b[i];
    if PrintableText(a) && PrintableText(b) {
      forall i | 0 <= i < |s| ensures Printable(s[i]) {
        assert s[i] == if i < |a| then a[i] else b[i - |a|];
      }
    }
  }

  lemma EncodingIsValid(v: int)
    requires Scalar(v)
    ensures Valid(Encode(v))
  {
    EncodeDecode(v);
    assert Encode(v) + [] == Encode(v);
    Prefixed(Encode(v), [], Encode(v));
  }

  /** The encoding of a text is always valid, and printable exactly when all its characters are readable. */
  lemma {:induction false} PrintableSpelling(vs: seq<int>)
    requires AllScalar(vs)
    ensures Valid(Spell(vs)) && (PrintableText(Spell(vs)) <==> AllReadable(vs))
  {
    if vs != [] {
      hide Valid, PrintableText, Encode;
      var more := vs[1..];
      PrintableSpelling(more);
      PrintableScalar(vs[0]);
      EncodingIsValid(vs[0]);
      ValidConcat(Encode(vs[0]), Spell(more));
      PrintableConcat(Encode(vs[0]), Spell(more));
      assert AllReadable(vs) <==> Readable(vs[0]) && AllReadable(more) by {
        assert forall i :: 1 <= i < |vs| ==> vs[i] == more[i - 1];
      }
    }
  }

  /** Valid text is the encoding of some text. */
  lemma {:induction false} SpellingOf(s: seq<Byte>) returns (vs: seq<int>)
    requires Valid(s)
    ensures AllScalar(vs) && Spell(vs) == s
    decreases |s|
  {
    hide Sequence, Decode, Encode, Scalar;
    vs := [];
    if s != [] {
      var n :| 1 <= n <= |s| && Sequence(s[..n]) && Valid(s[n..]);
      var more := SpellingOf(s[n..]);
      DecodeEncode(s[..n]);
      vs := [Decode(s[..n])] + more;
      assert vs[1..] == more;
      assert s == s[..n] + s[n..];
    }
  }

  /** Printable text is exactly what readable characters encode to. */
  lemma PrintableIsReadable(s: seq<Byte>)
    ensures PrintableText(s) <==> exists vs :: AllReadable(vs) && Spell(vs) == s
  {
    if PrintableText(s) {
      var vs := SpellingOf(s);
      PrintableSpelling(vs);
      assert AllReadable(vs) && Spell(vs) == s;
    }
    if exists vs :: AllReadable(vs) && Spell(vs) == s {
      var vs :| AllReadable(vs) && Spell(vs) == s;
      PrintableSpelling(vs);
    }
  }

  method IsPrintable(s: seq<Byte>) returns (ok: bool)
    ensures ok <==> PrintableText(s)
    ensures ok <==> exists vs :: AllReadable(vs) && Spell(vs) == s
  {
    PrintableIsReadable(s);
    var pos := 0;
    while pos < |s|
      invariant 0 <= pos <= |s| && forall i :: 0 <= i < pos ==> Printable(s[i])
    {
      if !Printable(s[pos]) {
        return false;
      }
      pos := pos + 1;
    }
    ok := IsValid(s);
  }
}
