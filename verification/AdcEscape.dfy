/** Escaping of argument text: `adc_msg_escape`, `adc_msg_unescape` and the escape check of `src/adc/message.c`. */
module AdcEscape {
  import opened Sequences

  // ----- What the codes mean

  predicate Special(c: char) {
    c == ' ' || c == '\n' || c == '\\'
  }

  /** The code of one character. */
  function Code(c: char): string {
    if c == '\\' then ['\\', '\\'] else if c == '\n' then ['\\', 'n'] else if c == ' ' then ['\\', 's'] else [c]
  }

  function Escaped(s: string): string {
    if s == [] then [] else Code(s[0]) + Escaped(s[1..])
  }

  /** What a character after a backslash stands for; one that is no code stands for itself. */
  function Meaning(c: char): char {
    if c == 's' then ' ' else if c == 'n' then '\n' else c
  }

  /** The text behind `t`, when a backslash came just before it or not.  A backslash at the end stands for nothing. */
  function Decoded(t: string, escaped: bool): string {
    if t == [] then []
    else if escaped then [Meaning(t[0])] + Decoded(t[1..], false)
    else if t[0] == '\\' then Decoded(t[1..], true)
    else [t[0]] + Decoded(t[1..], false)
  }

  function Unescaped(t: string): string {
    Decoded(t, false)
  }

  /** Every backslash is followed by one of the three codes. */
  predicate WellEscaped(t: string) {
    if t == [] then true
    else if t[0] != '\\' then WellEscaped(t[1..])
    else |t| > 1 && (t[1] == '\\' || t[1] == 'n' || t[1] == 's') && WellEscaped(t[2..])
  }

  predicate Plain(t: string) {
    ' ' !in t && '\n' !in t
  }

  // ----- The two are inverse

  lemma DecodePair(t: string)
    requires |t| > 1 && t[0] == '\\'
    ensures Unescaped(t) == [Meaning(t[1])] + Unescaped(t[2..])
  {
    assert t[1..][1..] == t[2..];
    assert Unescaped(t) == Decoded(t[1..], true);
  }

  /** Unescaping undoes escaping, whatever the text. */
  lemma {:induction false} UnescapeEscape(s: string)
    ensures Unescaped(Escaped(s)) == s
  {
    if s != [] {
      UnescapeEscape(s[1..]);
      var e := Escaped(s);
      if Special(s[0]) {
        DecodePair(e);
        assert e[2..] == Escaped(s[1..]);
      } else {
        assert e[1..] == Escaped(s[1..]);
      }
    }
  }

  /** Escaped text can stand in an argument and passes the check. */
  lemma {:induction false} EscapedIsPlain(s: string)
    ensures Plain(Escaped(s)) && WellEscaped(Escaped(s))
    ensures '\0' !in s ==> '\0' !in Escaped(s)
  {
    if s != [] {
      EscapedIsPlain(s[1..]);
      var e := Escaped(s);
      if Special(s[0]) {
        assert e[2..] == Escaped(s[1..]);
      } else {
        assert e[1..] == Escaped(s[1..]);
      }
      PlainStep(s[0], Escaped(s[1..]));
    }
  }

  lemma PlainStep(c: char, t: string)
    ensures Plain(t) ==> Plain(Code(c) + t)
    ensures c != '\0' && '\0' !in t ==> '\0' !in Code(c) + t
  {}

  lemma {:induction false} EscapeUnescapePlain(t: string)
    requires Plain(t) && WellEscaped(t)
    ensures Escaped(Unescaped(t)) == t
  {
    if t == [] {
    } else if t[0] != '\\' {
      EscapeUnescapePlain(t[1..]);
      assert Unescaped(t)[1..] == Unescaped(t[1..]);
    } else {
      EscapeUnescapePlain(t[2..]);
      DecodePair(t);
      assert Unescaped(t)[1..] == Unescaped(t[2..]);
      assert t == [t[0], t[1]] + t[2..];
    }
  }

  /** Escaping undoes unescaping exactly on the text that passes the escape check and has no raw space or newline. */
  lemma EscapeUnescape(t: string)
    ensures Escaped(Unescaped(t)) == t <==> Plain(t) && WellEscaped(t)
  {
    if Plain(t) && WellEscaped(t) {
      EscapeUnescapePlain(t);
    }
    EscapedIsPlain(Unescaped(t));
  }

  /** Escaping goes letter by letter, with a code of its own for each of three characters. */
  lemma {:induction false} EscapedByLetter(a: string, b: string)
    ensures Escaped(a + b) == Escaped(a) + Escaped(b)
    ensures Escaped([' ']) == "\\s" && Escaped(['\n']) == "\\n" && Escaped(['\\']) == "\\\\"
    ensures |a| == 1 && a != [' '] && a != ['\n'] && a != ['\\'] ==> Escaped(a) == a
  {
    if a == [] {
      assert a + b == b;
    } else {
      assert (a + b)[1..] == a[1..] + b;
      EscapedByLetter(a[1..], b);
    }
  }

  /** Unescaping reads one letter or one code at a time; what is no code stands for its letter, and a lone backslash for nothing. */
  lemma UnescapedByLetter(c: char, t: string)
    ensures c != '\\' ==> Unescaped([c] + t) == [c] + Unescaped(t)
    ensures Unescaped(['\\', c] + t) == [if c == 's' then ' ' else if c == 'n' then '\n' else c] + Unescaped(t)
    ensures Unescaped(['\\']) == []
  {
    assert ([c] + t)[1..] == t;
    var s := ['\\', c] + t;
    assert s[2..] == t;
    DecodePair(s);
    assert ['\\'][1..] == [];
  }

  // ----- The code

  /** The three codes and nothing else may follow a backslash. */
  method CheckEscapes(text: string) returns (ok: bool)
    ensures ok <==> WellEscaped(text)
  {
    var start := 0;
    while true
      invariant start <= |text|
      invariant WellEscaped(text) <==> WellEscaped(text[start..])
      decreases |text| - start
    {
      start := FindBackslash(text, start);
      if start == |text| {
        return true;
      }
      if start + 1 == |text| {
        return false;
      }
      start := start + 1;
      if text[start] == '\\' || text[start] == 'n' || text[start] == 's' {
        assert text[start - 1..][2..] == text[start + 1..];
        start := start + 1;
      } else {
        return false;
      }
    }
  }

  /** The search for the next backslash, which skips nothing that matters. */
  method FindBackslash(text: string, from: nat) returns (pos: nat)
    requires from <= |text|
    ensures from <= pos <= |text| && (pos < |text| ==> text[pos] == '\\')
    ensures WellEscaped(text[from..]) <==> WellEscaped(text[pos..])
  {
    pos := from;
    while pos < |text| && text[pos] != '\\'
      invariant from <= pos <= |text|
      invariant WellEscaped(text[from..]) <==> WellEscaped(text[pos..])
    {
      assert text[pos..][1..] == text[pos + 1..];
      pos := pos + 1;
    }
  }

  /** The room an escaped string takes, terminator not counted. */
  method EscapeLength(s: string) returns (length: nat)
    ensures length == |Escaped(s)|
  {
    var n, add := 0, 0;
    while n < |s|
      invariant 0 <= n <= |s|
      invariant n + add + |Escaped(s[n..])| == |Escaped(s)|
    {
      assert s[n..][1..] == s[n + 1..];
      if s[n] == ' ' || s[n] == '\n' || s[n] == '\\' {
        add := add + 1;
      }
      n := n + 1;
    }
    length := n + add;
  }

  /** The room an unescaped string takes, terminator not counted. */
  method UnescapeLength(t: string) returns (length: nat)
    ensures length == |Unescaped(t)|
  {
    var n, add, escape := 0, 0, false;
    while n < |t|
      invariant 0 <= add <= n <= |t|
      invariant n - add + |Decoded(t[n..], escape)| == |Unescaped(t)|
    {
      assert t[n..][1..] == t[n + 1..];
      if escape {
        escape := false;
      } else if t[n] == '\\' {
        escape := true;
        add := add + 1;
      }
      n := n + 1;
    }
    length := n - add;
  }

  /** The escaped copy fills its buffer exactly, terminator included. */
  method Escape(s: string) returns (str: array<char>)
    ensures fresh(str) && str.Length == |Escaped(s)| + 1
    ensures str[..|Escaped(s)|] == Escaped(s) && str[|Escaped(s)|] == '\0'
  {
    var length := EscapeLength(s);
    str := new char[length + 1];
    var i, n := 0, 0;
    while i < |s|
      invariant 0 <= i <= |s| && 0 <= n <= length
      invariant str[..n] + Escaped(s[i..]) == Escaped(s)
    {
      assert s[i..][1..] == s[i + 1..];
      Assemble(str[..n], Code(s[i]), Escaped(s[i + 1..]));
      ghost var done := str[..n];
      if s[i] == '\\' {
        str[n], str[n + 1] := '\\', '\\';
        n := n + 2;
      } else if s[i] == '\n' {
        str[n], str[n + 1] := '\\', 'n';
        n := n + 2;
      } else if s[i] == ' ' {
        str[n], str[n + 1] := '\\', 's';
        n := n + 2;
      } else {
        str[n] := s[i];
        n := n + 1;
      }
      assert str[..n] == done + Code(s[i]);
      i := i + 1;
    }
    assert str[..n] == Escaped(s);
    str[n] := '\0';
  }

  /** One more character in a buffer. */
  method Put(target: array<char>, w: nat, c: char)
    requires w < target.Length
    modifies target
    ensures target[..w + 1] == old(target[..w]) + [c]
  {
    target[w] := c;
  }

  /** The character a code stands for. */
  method PutMeaning(target: array<char>, w: nat, c: char)
    requires w < target.Length
    modifies target
    ensures target[..w + 1] == old(target[..w]) + [Meaning(c)]
  {
    if c == 's' {
      Put(target, w, ' ');
    } else if c == '\\' {
      Put(target, w, '\\');
    } else if c == 'n' {
      Put(target, w, '\n');
    } else {
      Put(target, w, c);
    }
  }

  /** The unescaped text, cut to what fits in front of the terminator; the result counts the terminator. */
  method UnescapeToTarget(t: string, target: array<char>) returns (w: nat)
    requires target.Length > 0
    modifies target
    ensures w == 1 + if |Unescaped(t)| < target.Length then |Unescaped(t)| else target.Length - 1
    ensures target[..w - 1] == Unescaped(t)[..w - 1] && target[w - 1] == '\0'
  {
    var i, escaped := 0, false;
    ghost var done := [];
    w := 0;
    while i < |t| && w < target.Length - 1
      invariant 0 <= i <= |t| && 0 <= w < target.Length
      invariant target[..w] == done && done + Decoded(t[i..], escaped) == Unescaped(t)
    {
      assert t[i..][1..] == t[i + 1..];
      if escaped {
        PutMeaning(target, w, t[i]);
        w := w + 1;
        Assemble(done, [Meaning(t[i])], Decoded(t[i + 1..], false));
        done := done + [Meaning(t[i])];
        escaped := false;
      } else if t[i] == '\\' {
        escaped := true;
      } else {
        Put(target, w, t[i]);
        w := w + 1;
        Assemble(done, [t[i]], Decoded(t[i + 1..], false));
        done := done + [t[i]];
      }
      i := i + 1;
    }
    assert done == Unescaped(t)[..w];
    target[w] := '\0';
    assert target[..w] == done;
    w := w + 1;
  }

  /** The unescaped copy fills its buffer exactly. */
  method Unescape(t: string) returns (str: array<char>)
    ensures fresh(str) && str.Length == |Unescaped(t)| + 1
    ensures str[..|Unescaped(t)|] == Unescaped(t) && str[|Unescaped(t)|] == '\0'
  {
    var length := UnescapeLength(t);
    str := new char[length + 1];
    var w := UnescapeToTarget(t, str);
  }
}
