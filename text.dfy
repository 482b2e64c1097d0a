/**
 * The string operations the quiz uses on answer and favorite keys: the decimal
 * rendering of a number inside a template literal, `startsWith`, and the
 * second field of `split('-')`.
 */
module Text {
  import opened Wrappers

  predicate IsDigit(c: char) { '0' <= c <= '9' }

  predicate AllDigits(s: string) { forall i :: 0 <= i < |s| ==> IsDigit(s[i]) }

  /** No character of `s` is the key separator '-'. */
  predicate DashFree(s: string) { forall i :: 0 <= i < |s| ==> s[i] != '-' }

  function DigitChar(d: nat): (c: char)
    requires d < 10
    ensures IsDigit(c)
  {
    (48 + d) as char
  }

  function DigitValue(c: char): (d: nat)
    requires IsDigit(c)
    ensures d < 10
  {
    (c as int) - 48
  }

  /** `${n}` for a non-negative integer: its decimal digits, without leading zeros. */
  function NatToString(n: nat): (s: string)
    ensures 1 <= |s|
    ensures AllDigits(s)
    ensures |s| > 1 ==> s[0] != '0'
    decreases n
  {
    if n < 10 then [DigitChar(n)] else NatToString(n / 10) + [DigitChar(n % 10)]
  }

  /** The value of a string of decimal digits (0 for the empty string). */
  function ParseDecimal(s: string): nat
    requires AllDigits(s)
  {
    if |s| == 0 then 0 else ParseDecimal(s[..|s| - 1]) * 10 + DigitValue(s[|s| - 1])
  }

  /** Reading back the decimal rendering of a number gives the number. */
  lemma {:induction false} ParseNatToString(n: nat)
    ensures ParseDecimal(NatToString(n)) == n
    decreases n
  {
    var s := NatToString(n);
    if n >= 10 {
      assert s[..|s| - 1] == NatToString(n / 10);
      ParseNatToString(n / 10);
    }
  }

  /** Distinct numbers render as distinct strings. */
  lemma NatToStringInjective(a: nat, b: nat)
    ensures NatToString(a) == NatToString(b) <==> a == b
  {
    ParseNatToString(a);
    ParseNatToString(b);
  }

  /** JavaScript's `s.startsWith(p)`. */
  predicate StartsWith(s: string, p: string) { |p| <= |s| && s[..|p|] == p }

  /**
   * For dash-free heads, the key `head + "-" + tail` starts with `other + "-"`
   * exactly when `other` is the head: the separator pins down where the head ends.
   */
  lemma PrefixAtDash(head: string, tail: string, other: string)
    requires DashFree(head) && DashFree(other)
    ensures StartsWith(head + "-" + tail, other + "-") <==> head == other
  {
    var key := head + "-" + tail;
    var p := other + "-";
    if head == other {
      assert key[..|p|] == p;
    }
    if StartsWith(key, p) {
      assert key[|other|] == key[..|p|][|other|] == '-';
      assert |head| <= |other|;
      assert key[|head|] == '-';
      assert key[|head|] == key[..|p|][|head|];
      forall i | 0 <= i < |head| ensures head[i] == other[i] {
        assert key[i] == head[i];
        assert key[..|p|][i] == p[i];
      }
    }
  }

  /** The characters of `s` before its first '-' (all of `s` if it has none). */
  function FirstField(s: string): (f: string)
    ensures DashFree(f) && |f| <= |s|
  {
    if |s| == 0 || s[0] == '-' then [] else [s[0]] + FirstField(s[1..])
  }

  /** What follows the first '-' of `s`; `None` if `s` has no '-'. */
  function AfterDash(s: string): Option<string>
  {
    if |s| == 0 then None else if s[0] == '-' then Some(s[1..]) else AfterDash(s[1..])
  }

  /**
   * `s.split('-')[1]`: the text between the first and the second '-'
   * (to the end if there is no second one); `None` (undefined) if `s` has no '-'.
   */
  function SecondField(s: string): Option<string>
  {
    match AfterDash(s)
    case None => None
    case Some(rest) => Some(FirstField(rest))
  }

  /** Splitting `head + "-" + tail` at its first dash gives back the two parts. */
  lemma {:induction false} SplitAtFirstDash(head: string, tail: string)
    requires DashFree(head)
    ensures AfterDash(head + "-" + tail) == Some(tail)
    ensures DashFree(tail) ==> FirstField(tail) == tail
    decreases |head| + |tail|
  {
    if |head| > 0 {
      assert (head + "-" + tail)[1..] == head[1..] + "-" + tail;
      SplitAtFirstDash(head[1..], tail);
    }
    if DashFree(tail) && |tail| > 0 {
      SplitAtFirstDash([], tail[1..]);
    }
  }

  /**
   * JavaScript's loose equality `number == text` for the texts a key can hold:
   * the text converts to the number when it is a non-empty string of digits.
   */
  predicate LooselyEquals(n: nat, text: Option<string>)
  {
    text.Some? && |text.value| > 0 && AllDigits(text.value) && ParseDecimal(text.value) == n
  }

  /** The decimal rendering of `m` loosely equals exactly the number `m`. */
  lemma LooselyEqualsRendering(n: nat, m: nat)
    ensures LooselyEquals(n, Some(NatToString(m))) <==> n == m
  {
    ParseNatToString(m);
  }
}
