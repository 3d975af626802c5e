/** Base32 of `src/util/misc.c`: the alphabet of section 6 of RFC 4648, without padding. */
module Base32 {

  // ----- The alphabet

  const ALPHABET := "ABCDEFGHIJKLMNOPQRSTUVWXYZ234567"

  /** The value of a letter, -1 for a character outside the alphabet. */
  function Value(c: char): (v: int)
    ensures -1 <= v < 32
  {
    if 'A' <= c <= 'Z' then c as int - 'A' as int else if '2' <= c <= '7' then c as int - '2' as int + 26 else -1
  }

  lemma ValueOfLetter(v: nat)
    requires v < 32
    ensures Value(ALPHABET[v]) == v
  {}

  lemma LetterOfValue(c: char)
    requires Value(c) != -1
    ensures ALPHABET[Value(c)] == c
  {}

  /** The value of a letter as a byte. */
  function Word(c: char): (w: bv8)
    ensures w < 32
  {
    if Value(c) == -1 then 0 else Value(c) as bv8
  }

  lemma WordOfLetter(w: bv8)
    requires w < 32
    ensures w as int < 32 && Word(ALPHABET[w as int]) == w
  {
    ValueOfLetter(w as int);
    assert (w as int) as bv8 == w;
  }

  // ----- Bits, the most significant first

  predicate Bit(b: bv8, k: nat)
    requires k < 8
  {
    match k
    case 0 => b & 0x80 != 0
    case 1 => b & 0x40 != 0
    case 2 => b & 0x20 != 0
    case 3 => b & 0x10 != 0
    case 4 => b & 0x08 != 0
    case 5 => b & 0x04 != 0
    case 6 => b & 0x02 != 0
    case _ => b & 0x01 != 0
  }

  function Shr(b: bv8, n: nat): bv8
    requires n <= 8
  {
    match n
    case 0 => b
    case 1 => b >> 1
    case 2 => b >> 2
    case 3 => b >> 3
    case 4 => b >> 4
    case 5 => b >> 5
    case 6 => b >> 6
    case 7 => b >> 7
    case _ => 0
  }

  function Shl(b: bv8, n: nat): bv8
    requires n <= 8
  {
    match n
    case 0 => b
    case 1 => b << 1
    case 2 => b << 2
    case 3 => b << 3
    case 4 => b << 4
    case 5 => b << 5
    case 6 => b << 6
    case 7 => b << 7
    case _ => 0
  }

  lemma BitsDetermine(a: bv8, b: bv8)
    requires forall k :: 0 <= k < 8 ==> Bit(a, k) == Bit(b, k)
    ensures a == b
  {
    assert Bit(a, 0) == Bit(b, 0) && Bit(a, 1) == Bit(b, 1) && Bit(a, 2) == Bit(b, 2) && Bit(a, 3) == Bit(b, 3);
    assert Bit(a, 4) == Bit(b, 4) && Bit(a, 5) == Bit(b, 5) && Bit(a, 6) == Bit(b, 6) && Bit(a, 7) == Bit(b, 7);
  }

  /** Bit `k` of a string of bytes; there are zeros behind the end. */
  predicate OctetBit(s: seq<bv8>, k: nat) {
    k < 8 * |s| && Bit(s[k / 8], k % 8)
  }

  /** Bit `k` of a string of letters, five to a letter; there are zeros behind the end. */
  predicate LetterBit(s: string, k: nat) {
    k < 5 * |s| && Bit(Word(s[k / 5]), 3 + k % 5)
  }

  // ----- Encoding

  /** Five bits from inside a byte. */
  function Inside(b: bv8, index: nat): bv8
    requires index <= 3
  {
    Shr(b, 3 - index) & 0x1F
  }

  /** Five bits from the end of a byte and the start of the next. */
  function Across(b: bv8, c: bv8, index: nat): bv8
    requires 4 <= index <= 7
  {
    Shl(b & Shr(0xFF, index), index - 3) | Shr(c, 11 - index)
  }

  lemma BitOfInside(b: bv8, index: nat, j: nat)
    requires index <= 3 && j < 5
    ensures Inside(b, index) < 32 && Bit(Inside(b, index), 3 + j) == Bit(b, index + j)
  {}

  lemma BitOfAcross(b: bv8, c: bv8, index: nat, j: nat)
    requires 4 <= index <= 7 && j < 5
    ensures Bit(Across(b, c, index), 3 + j) == if index + j < 8 then Bit(b, index + j) else Bit(c, index + j - 8)
  {}

  lemma AcrossIsSmall(b: bv8, c: bv8, index: nat)
    requires 4 <= index <= 7
    ensures Across(b, c, index) < 32
  {}

  /** The five bits at a position of a string of bytes; zeros stand in for a byte behind the end. */
  function WordAt(b: seq<bv8>, i: nat, index: nat): bv8
    requires i < |b| && index < 8
  {
    if index > 3 then Across(b[i], if i + 1 < |b| then b[i + 1] else 0, index) else Inside(b[i], index)
  }

  lemma Position(i: nat, r: nat)
    requires r < 16
    ensures (8 * i + r) / 8 == (if r < 8 then i else i + 1) && (8 * i + r) % 8 == (if r < 8 then r else r - 8)
  {}

  lemma OctetBitAt(b: seq<bv8>, i: nat, r: nat)
    requires i < |b| && r < 16
    ensures OctetBit(b, 8 * i + r) == if r < 8 then Bit(b[i], r) else i + 1 < |b| && Bit(b[i + 1], r - 8)
  {
    Position(i, r);
  }

  lemma ZeroBits(k: nat)
    requires k < 8
    ensures !Bit(0, k)
  {}

  lemma WordAtBits(b: seq<bv8>, i: nat, index: nat, j: nat)
    requires i < |b| && index < 8 && j < 5
    ensures WordAt(b, i, index) < 32
    ensures Bit(WordAt(b, i, index), 3 + j) == OctetBit(b, 8 * i + (index + j))
  {
    OctetBitAt(b, i, index + j);
    if index > 3 {
      var next := if i + 1 < |b| then b[i + 1] else 0;
      BitOfAcross(b[i], next, index, j);
      AcrossIsSmall(b[i], next, index);
      if index + j >= 8 {
        ZeroBits(index + j - 8);
      }
    } else {
      BitOfInside(b[i], index, j);
    }
  }

  /** `s` spells the first bits of `b`. */
  ghost predicate Spells(s: string, b: seq<bv8>) {
    && (forall i :: 0 <= i < |s| ==> Value(s[i]) != -1)
    && (forall k: nat :: k < 5 * |s| ==> LetterBit(s, k) == OctetBit(b, k))
  }

  lemma SpellMore(s: string, b: seq<bv8>, i: nat, index: nat)
    requires Spells(s, b) && i < |b| && index < 8 && 5 * |s| == 8 * i + index
    ensures WordAt(b, i, index) as int < 32 && Spells(s + [ALPHABET[WordAt(b, i, index) as int]], b)
  {
    var w := WordAt(b, i, index);
    WordAtBits(b, i, index, 0);
    WordOfLetter(w);
    ValueOfLetter(w as int);
    var t := s + [ALPHABET[w as int]];
    forall k: nat | k < 5 * |t| ensures LetterBit(t, k) == OctetBit(b, k) {
      if k < 5 * |s| {
        assert t[k / 5] == s[k / 5];
        assert LetterBit(s, k) == OctetBit(b, k);
      } else {
        WordAtBits(b, i, index, k - 5 * |s|);
        assert k / 5 == |s| && k % 5 == k - 5 * |s|;
      }
    }
  }

  lemma NothingAfter(b: bv8, index: nat)
    requires 4 <= index <= 7
    ensures Across(b, 0, index) == Shl(b & Shr(0xFF, index), index - 3)
  {}

  /** Picks the next five bits and moves on. */
  method NextWord(buffer: seq<bv8>, at: nat, from: nat) returns (word: bv8, i: nat, index: nat)
    requires at < |buffer| && from < 8
    ensures word == WordAt(buffer, at, from) && 8 * i + index == 8 * at + from + 5 && index < 8
  {
    i, index := at, from;
    if index > 3 {
      word := buffer[i] & Shr(0xFF, index);
      index := (index + 5) % 8;
      assert index == from - 3;
      word := Shl(word, index);
      if i < |buffer| - 1 {
        assert 8 - index == 11 - from;
        word := word | Shr(buffer[i + 1], 8 - index);
        assert word == Across(buffer[at], buffer[at + 1], from);
      } else {
        NothingAfter(buffer[i], from);
      }
      i := i + 1;
    } else {
      assert 8 - (index + 5) == 3 - from;
      word := Shr(buffer[i], 8 - (index + 5)) & 0x1F;
      assert word == Inside(buffer[at], from);
      index := (index + 5) % 8;
      if index == 0 {
        i := i + 1;
      }
    }
  }

  /** The encoding has ceil(8n/5) letters, and they spell the bytes and at most four zeros. */
  method Encode(buffer: seq<bv8>, result: array<char>) returns (n: nat)
    requires result.Length > (8 * |buffer| + 4) / 5
    modifies result
    ensures n == (8 * |buffer| + 4) / 5 && result[n] == '\0'
    ensures Spells(result[..n], buffer)
  {
    var i, index := 0, 0;
    n := 0;
    while i < |buffer|
      invariant 0 <= i <= |buffer| && 0 <= index < 8 && n <= (8 * |buffer| + 4) / 5
      invariant i < |buffer| ==> 5 * n == 8 * i + index
      invariant i == |buffer| ==> n == (8 * |buffer| + 4) / 5
      invariant Spells(result[..n], buffer)
      decreases 8 * |buffer| + 8 - 5 * n
    {
      ghost var done := result[..n];
      SpellMore(done, buffer, i, index);
      var word;
      word, i, index := NextWord(buffer, i, index);
      result[n] := ALPHABET[word as int];
      n := n + 1;
      assert result[..n] == done + [ALPHABET[word as int]];
    }
    ghost var done := result[..n];
    result[n] := '\0';
    assert result[..n] == done;
  }

  // ----- Decoding

  /** The letters of a text; everything else is skipped. */
  function Letters(s: string): (r: string)
    ensures |r| <= |s|
  {
    if s == [] then [] else (if Value(s[0]) == -1 then [] else [s[0]]) + Letters(s[1..])
  }

  /** No letter is left out and nothing else is let in, wherever it stands. */
  lemma {:induction false} LettersOfConcat(a: string, b: string)
    ensures Letters(a + b) == Letters(a) + Letters(b)
    ensures |a| == 1 ==> Letters(a) == if a[0] in ALPHABET then a else []
  {
    hide Value, ALPHABET;
    if a == [] {
      assert a + b == b;
    } else {
      assert (a + b)[1..] == a[1..] + b;
      LettersOfConcat(a[1..], b);
      LetterIffValue(a[0]);
    }
  }

  lemma LetterIffValue(c: char)
    ensures c in ALPHABET <==> Value(c) != -1
  {
    if Value(c) != -1 { LetterOfValue(c); }
    if c in ALPHABET {
      var v :| 0 <= v < 32 && ALPHABET[v] == c;
      ValueOfLetter(v);
    }
  }

  lemma BitOfOr(a: bv8, b: bv8, j: nat)
    requires j < 8
    ensures Bit(a | b, j) == (Bit(a, j) || Bit(b, j))
  {}

  lemma BitOfShl(v: bv8, n: nat, j: nat)
    requires n <= 8 && j < 8
    ensures Bit(Shl(v, n), j) == (j + n < 8 && Bit(v, j + n))
  {}

  lemma BitOfShr(v: bv8, n: nat, j: nat)
    requires n <= 8 && j < 8
    ensures Bit(Shr(v, n), j) == (j >= n && Bit(v, j - n))
  {}

  lemma BitOfSmall(v: bv8, j: nat)
    requires v < 32 && j < 3
    ensures !Bit(v, j)
  {}

  lemma OrShl(b: bv8, v: bv8, n: nat, j: nat)
    requires n <= 8 && j < 8
    ensures Bit(b | Shl(v, n), j) == (Bit(b, j) || (j + n < 8 && Bit(v, j + n)))
  {
    BitOfOr(b, Shl(v, n), j);
    BitOfShl(v, n, j);
  }

  lemma OrShr(b: bv8, v: bv8, n: nat, j: nat)
    requires n <= 8 && j < 8
    ensures Bit(b | Shr(v, n), j) == (Bit(b, j) || (j >= n && Bit(v, j - n)))
  {
    BitOfOr(b, Shr(v, n), j);
    BitOfShr(v, n, j);
  }

  /** A byte with five more bits from `index` on, as far as they fit. */
  function Here(b: bv8, index: nat, v: bv8): bv8
    requires index < 8
  {
    if index <= 3 then b | Shl(v, 3 - index) else b | Shr(v, index - 3)
  }

  /** The byte behind it with those that did not fit. */
  function Next(b: bv8, index: nat, v: bv8): bv8
    requires index < 8
  {
    if index <= 3 then b else b | Shl(v, 11 - index)
  }

  lemma BitOfHere(b: bv8, index: nat, v: bv8, j: nat)
    requires index < 8 && j < 8 && v < 32
    ensures Bit(Here(b, index, v), j) == (Bit(b, j) || (index <= j < index + 5 && Bit(v, 3 + j - index)))
  {
    hide Shl, Shr, Bit;
    if index <= 3 {
      OrShl(b, v, 3 - index, j);
      if j < index {
        BitOfSmall(v, 3 + j - index);
      }
    } else {
      OrShr(b, v, index - 3, j);
      if index - 3 <= j < index {
        BitOfSmall(v, 3 + j - index);
      }
    }
  }

  lemma BitOfNext(b: bv8, index: nat, v: bv8, j: nat)
    requires index < 8 && j < 8
    ensures Bit(Next(b, index, v), j) == (Bit(b, j) || (j + 3 < index && Bit(v, 11 + j - index)))
  {
    hide Shl, Shr, Bit;
    if index > 3 {
      OrShl(b, v, 11 - index, j);
    }
  }

  /** Or-ing five bits into a string of bytes. */
  function Put(dst: seq<bv8>, offset: nat, index: nat, v: bv8): (r: seq<bv8>)
    requires offset < |dst| && index < 8
    ensures |r| == |dst|
  {
    var r := dst[offset := Here(dst[offset], index, v)];
    if offset + 1 < |dst| then r[offset + 1 := Next(dst[offset + 1], index, v)] else r
  }

  lemma BitOfPut(dst: seq<bv8>, offset: nat, index: nat, v: bv8, i: nat, j: nat)
    requires offset < |dst| && index < 8 && v < 32 && i < |dst| && j < 8
    ensures var at := 8 * i + j - (8 * offset + index);
            Bit(Put(dst, offset, index, v)[i], j) == (Bit(dst[i], j) || (0 <= at < 5 && Bit(v, 3 + at)))
  {
    if i == offset {
      BitOfHere(dst[i], index, v, j);
    } else if i == offset + 1 {
      BitOfNext(dst[i], index, v, j);
    }
  }

  /** The bytes hold the bits of the letters as far as there is room, and zeros behind them. */
  ghost predicate Filled(dst: seq<bv8>, s: string) {
    forall k: nat :: k < 8 * |dst| ==> OctetBit(dst, k) == LetterBit(s, k)
  }

  lemma LetterBitMore(s: string, c: char, k: nat)
    ensures LetterBit(s + [c], k) == (LetterBit(s, k) || (5 * |s| <= k < 5 * |s| + 5 && Bit(Word(c), 3 + k - 5 * |s|)))
  {
    var t := s + [c];
    if k < 5 * |s| {
      assert t[k / 5] == s[k / 5];
    } else if k < 5 * |t| {
      assert k / 5 == |s| && k % 5 == k - 5 * |s|;
    }
  }

  lemma FillMore(dst: seq<bv8>, s: string, c: char, offset: nat, index: nat)
    requires Filled(dst, s) && offset < |dst| && index < 8 && 5 * |s| == 8 * offset + index
    ensures Filled(Put(dst, offset, index, Word(c)), s + [c])
  {
    var r := Put(dst, offset, index, Word(c));
    forall k: nat | k < 8 * |r| ensures OctetBit(r, k) == LetterBit(s + [c], k) {
      BitOfPut(dst, offset, index, Word(c), k / 8, k % 8);
      assert OctetBit(dst, k) == LetterBit(s, k);
      LetterBitMore(s, c, k);
    }
  }

  /** Letters behind the room there is do not matter. */
  lemma FilledUp(dst: seq<bv8>, s: string, more: string)
    requires Filled(dst, s) && 8 * |dst| <= 5 * |s|
    ensures Filled(dst, s + more)
  {
    forall k: nat | k < 8 * |dst| ensures OctetBit(dst, k) == LetterBit(s + more, k) {
      assert OctetBit(dst, k) == LetterBit(s, k);
      assert (s + more)[k / 5] == s[k / 5];
    }
  }

  lemma LettersStep(s: string, i: nat)
    requires i < |s|
    ensures Letters(s[i..]) == (if Value(s[i]) == -1 then [] else [s[i]]) + Letters(s[i + 1..])
  {
    assert s[i..][1..] == s[i + 1..];
  }

  lemma ShlByNone(v: bv8)
    ensures Shl(v, 0) == v
  {}

  /** Or-s the bits of one letter into the buffer and moves on. */
  method Place(dst: array<bv8>, at: nat, from: nat, n: bv8) returns (offset: nat, index: nat)
    requires at < dst.Length && from < 8
    modifies dst
    ensures dst[..] == Put(old(dst[..]), at, from, n) && 8 * offset + index == 8 * at + from + 5 && index < 8
    ensures offset <= dst.Length
  {
    hide Shl, Shr;
    ghost var was := dst[..];
    ShlByNone(n);
    offset, index := at, from;
    if index <= 3 {
      index := (index + 5) % 8;
      if index == 0 {
        assert 3 - from == 0;
        dst[offset] := dst[offset] | n;
        offset := offset + 1;
      } else {
        assert 8 - index == 3 - from;
        dst[offset] := dst[offset] | Shl(n, 8 - index);
      }
      assert dst[at] == Here(was[at], from, n);
      assert at + 1 < dst.Length ==> dst[at + 1] == Next(was[at + 1], from, n);
    } else {
      index := (index + 5) % 8;
      assert index == from - 3;
      dst[offset] := dst[offset] | Shr(n, index);
      offset := offset + 1;
      if offset < dst.Length {
        dst[offset] := dst[offset] | Shl(n, 8 - index);
        assert dst[at + 1] == Next(was[at + 1], from, n);
      }
      assert dst[at] == Here(was[at], from, n);
    }
    SamePlaces(was, at, from, n, dst[..]);
  }

  lemma SamePlaces(was: seq<bv8>, at: nat, index: nat, n: bv8, now: seq<bv8>)
    requires at < |was| == |now| && index < 8 && now[at] == Here(was[at], index, n)
    requires at + 1 < |was| ==> now[at + 1] == Next(was[at + 1], index, n)
    requires forall i :: 0 <= i < |was| && i != at && i != at + 1 ==> now[i] == was[i]
    ensures now == Put(was, at, index, n)
  {}

  /** Adds one letter; the buffer is full when `offset` reaches its length. */
  method AddLetter(dst: array<bv8>, at: nat, from: nat, c: char, ghost s: string) returns (offset: nat, index: nat)
    requires at < dst.Length && from < 8 && 5 * |s| == 8 * at + from && Filled(dst[..], s)
    modifies dst
    ensures Filled(dst[..], s + [c]) && 8 * offset + index == 5 * |s| + 5 && index < 8
    ensures offset <= dst.Length
  {
    FillMore(dst[..], s, c, at, from);
    offset, index := Place(dst, at, from, Word(c));
  }

  /** The bytes hold the bits of the letters, cut at the room there is and filled up with zeros. */
  method Decode(src: string, dst: array<bv8>)
    requires dst.Length > 0 || Letters(src) == []
    modifies dst
    ensures Filled(dst[..], Letters(src))
  {
    hide Value, Word, Letters, Filled;
    forall i | 0 <= i < dst.Length { dst[i] := 0; }
    ghost var s := [];
    StartsEmpty(dst[..]);
    var index, offset, i := 0, 0, 0;
    while i < |src|
      invariant 0 <= i <= |src| && 0 <= index < 8 && 0 <= offset && 5 * |s| == 8 * offset + index
      invariant offset < dst.Length || Letters(src) == []
      invariant Filled(dst[..], s) && s + Letters(src[i..]) == Letters(src)
    {
      LettersStep(src, i);
      if Value(src[i]) != -1 {
        ghost var rest := Letters(src[i + 1..]);
        assert s + ([src[i]] + rest) == (s + [src[i]]) + rest;
        offset, index := AddLetter(dst, offset, index, src[i], s);
        s := s + [src[i]];
        if offset == dst.Length {
          FilledUp(dst[..], s, rest);
          return;
        }
      }
      i := i + 1;
    }
    assert s + [] == s;
  }

  lemma StartsEmpty(dst: seq<bv8>)
    requires forall i :: 0 <= i < |dst| ==> dst[i] == 0
    ensures Filled(dst, [])
  {
    forall k: nat | k < 8 * |dst| ensures !OctetBit(dst, k) {
      ZeroBits(k % 8);
    }
  }

  // ----- The round trip

  /** All letters of what an encoding spells are letters. */
  lemma {:induction false} AllLetters(s: string)
    requires forall i :: 0 <= i < |s| ==> Value(s[i]) != -1
    ensures Letters(s) == s
  {
    if s != [] {
      AllLetters(s[1..]);
    }
  }

  /** Bytes that hold the letters of an encoding are the encoded bytes and zeros behind them. */
  lemma DecodeEncode(b: seq<bv8>, s: string, dst: seq<bv8>)
    requires Spells(s, b) && |s| == (8 * |b| + 4) / 5 && Filled(dst, Letters(s)) && |dst| >= |b|
    ensures dst[..|b|] == b && forall i :: |b| <= i < |dst| ==> dst[i] == 0
  {
    AllLetters(s);
    forall i | 0 <= i < |dst| ensures dst[i] == if i < |b| then b[i] else 0 {
      ByteBack(b, s, dst, i);
    }
  }

  lemma ByteBack(b: seq<bv8>, s: string, dst: seq<bv8>, i: nat)
    requires Spells(s, b) && |s| == (8 * |b| + 4) / 5 && Filled(dst, s) && i < |dst|
    ensures dst[i] == if i < |b| then b[i] else 0
  {
    var c := if i < |b| then b[i] else 0;
    forall j | 0 <= j < 8 ensures Bit(dst[i], j) == Bit(c, j) {
      BitBack(b, s, dst, i, j);
    }
    BitsDetermine(dst[i], c);
  }

  lemma BitBack(b: seq<bv8>, s: string, dst: seq<bv8>, i: nat, j: nat)
    requires Spells(s, b) && |s| == (8 * |b| + 4) / 5 && Filled(dst, s) && i < |dst| && j < 8
    ensures Bit(dst[i], j) == Bit(if i < |b| then b[i] else 0, j)
  {
    var k := 8 * i + j;
    ZeroBits(j);
    OctetBitAt(dst, i, j);
    assert OctetBit(dst, k) == LetterBit(s, k);
    if k < 5 * |s| {
      assert LetterBit(s, k) == OctetBit(b, k);
      if i < |b| {
        OctetBitAt(b, i, j);
      }
    }
  }

  /** The encoding is the only text of its length that spells the bytes. */
  lemma SpellingIsUnique(b: seq<bv8>, s: string, t: string)
    requires Spells(s, b) && Spells(t, b) && |s| == |t|
    ensures s == t
  {
    hide Bit;
    forall i | 0 <= i < |s| ensures s[i] == t[i] {
      forall j | 0 <= j < 8 ensures Bit(Word(s[i]), j) == Bit(Word(t[i]), j) {
        if j < 3 {
          BitOfSmall(Word(s[i]), j);
          BitOfSmall(Word(t[i]), j);
        } else {
          var k := 5 * i + (j - 3);
          assert LetterBit(s, k) == OctetBit(b, k) && LetterBit(t, k) == OctetBit(b, k);
        }
      }
      BitsDetermine(Word(s[i]), Word(t[i]));
      LetterOfValue(s[i]);
      LetterOfValue(t[i]);
      SameValue(Value(s[i]), Value(t[i]));
    }
  }

  lemma SameValue(v: nat, w: nat)
    requires v < 32 && w < 32 && v as bv8 == w as bv8
    ensures v == w
  {
    assert (v as bv8) as int == v && (w as bv8) as int == w;
  }
}
