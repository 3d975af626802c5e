/** Session identifiers as four letters: `sid_to_string` and `string_to_sid` of `src/adc/sid.c`. */
module SidText {
  import opened Base32

  const SID_LIMIT: nat := 1_048_576

  /** The digits of an identifier, the least significant taken off first. */
  function ToText(sid: nat): (s: string)
    requires sid < SID_LIMIT
    ensures IsSidText(s)
  {
    var d := sid % 32;
    var c := sid / 32 % 32;
    var b := sid / 32 / 32 % 32;
    var a := sid / 32 / 32 / 32 % 32;
    ValueOfLetter(a);
    ValueOfLetter(b);
    ValueOfLetter(c);
    ValueOfLetter(d);
    [ALPHABET[a], ALPHABET[b], ALPHABET[c], ALPHABET[d]]
  }

  predicate IsSidText(s: string) {
    |s| == 4 && forall i :: 0 <= i < 4 ==> Value(s[i]) != -1
  }

  /** The number that a text of letters stands for. */
  function Number(s: string): nat
    requires forall i :: 0 <= i < |s| ==> Value(s[i]) != -1
  {
    if s == [] then 0 else Number(s[..|s| - 1]) * 32 + Value(s[|s| - 1])
  }

  /** Anything but four letters stands for 0. */
  function FromText(s: string): nat {
    if IsSidText(s) then Number(s) else 0
  }

  method StringToSid(sid: string) returns (nsid: nat)
    ensures nsid == FromText(sid)
  {
    if |sid| != 4 {
      return 0;
    }
    nsid := 0;
    var n := 0;
    while n < 4
      invariant 0 <= n <= 4 && (forall i :: 0 <= i < n ==> Value(sid[i]) != -1) && nsid == Number(sid[..n])
    {
      var x := Value(sid[n]);
      if x == -1 {
        return 0;
      }
      assert sid[..n + 1][..n] == sid[..n];
      nsid := nsid * 32 + x;
      n := n + 1;
    }
    assert sid[..4] == sid;
  }

  lemma NumberOfFour(s: string)
    requires IsSidText(s)
    ensures Number(s) == ((Value(s[0]) * 32 + Value(s[1])) * 32 + Value(s[2])) * 32 + Value(s[3])
  {
    assert s[..3][..2] == s[..2] && s[..2][..1] == s[..1] && s[..1][..0] == [];
    assert Number(s[..1]) == Value(s[0]);
    assert Number(s[..2]) == Number(s[..1]) * 32 + Value(s[1]);
    assert Number(s[..3]) == Number(s[..2]) * 32 + Value(s[2]);
  }

  lemma DigitsRestore(n: nat)
    requires n < SID_LIMIT
    ensures ((n / 32 / 32 / 32 % 32 * 32 + n / 32 / 32 % 32) * 32 + n / 32 % 32) * 32 + n % 32 == n
  {}

  lemma TakeDigit(x: nat, y: nat)
    requires y < 32
    ensures (x * 32 + y) / 32 == x && (x * 32 + y) % 32 == y
  {}

  lemma RestoreDigits(a: nat, b: nat, c: nat, d: nat)
    requires a < 32 && b < 32 && c < 32 && d < 32
    ensures var n := ((a * 32 + b) * 32 + c) * 32 + d;
            && n < SID_LIMIT && n % 32 == d && n / 32 % 32 == c
            && n / 32 / 32 % 32 == b && n / 32 / 32 / 32 % 32 == a
  {
    TakeDigit((a * 32 + b) * 32 + c, d);
    TakeDigit(a * 32 + b, c);
    TakeDigit(a, b);
  }

  /** Every identifier is restored from its text. */
  lemma FromToText(sid: nat)
    requires sid < SID_LIMIT
    ensures FromText(ToText(sid)) == sid
  {
    hide Number;
    var s := ToText(sid);
    NumberOfFour(s);
    ValuesOfText(sid);
    DigitsRestore(sid);
  }

  lemma ValuesOfText(sid: nat)
    requires sid < SID_LIMIT
    ensures var s := ToText(sid);
            && Value(s[0]) == sid / 32 / 32 / 32 % 32 && Value(s[1]) == sid / 32 / 32 % 32
            && Value(s[2]) == sid / 32 % 32 && Value(s[3]) == sid % 32
  {
    ValueOfLetter(sid % 32);
    ValueOfLetter(sid / 32 % 32);
    ValueOfLetter(sid / 32 / 32 % 32);
    ValueOfLetter(sid / 32 / 32 / 32 % 32);
  }

  /** Every text of four letters is restored from its identifier. */
  lemma ToFromText(s: string)
    requires IsSidText(s)
    ensures FromText(s) < SID_LIMIT && ToText(FromText(s)) == s
  {
    hide Value, ALPHABET;
    NumberOfFour(s);
    LetterOfValue(s[0]);
    LetterOfValue(s[1]);
    LetterOfValue(s[2]);
    LetterOfValue(s[3]);
    RestoreDigits(Value(s[0]), Value(s[1]), Value(s[2]), Value(s[3]));
  }
}
