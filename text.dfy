/** Small string-scanning helpers used to read an encoder command back. */
module Text {

  import opened Common

  /** The rest of `s` after the prefix `p`, if `s` starts with `p`. */
  function StripPrefix(s: string, p: string): (r: Option<string>)
    ensures r.Some? <==> p <= s
    ensures r.Some? ==> s == p + r.value
  {
    if p <= s then Some(s[|p|..]) else None
  }

  lemma StripPrefixOf(p: string, rest: string)
    ensures StripPrefix(p + rest, p) == Some(rest)
  {
    assert (p + rest)[|p|..] == rest;
  }

  /**
   * Splits `s` just before the first occurrence of `c`; the second part
   * starts with `c`. None when `c` does not occur.
   */
  function TakeUntil(s: string, c: char): (r: Option<(string, string)>)
    ensures r.None? <==> c !in s
    ensures r.Some? ==> s == r.value.0 + r.value.1 && c !in r.value.0
    ensures r.Some? ==> |r.value.1| >= 1 && r.value.1[0] == c
  {
    if |s| == 0 then None
    else if s[0] == c then Some(([], s))
    else
      match TakeUntil(s[1..], c)
      case None => None
      case Some(parts) => Some(([s[0]] + parts.0, parts.1))
  }

  /** The split falls on the first occurrence of the separator. */
  lemma {:induction false} TakeUntilFirst(a: string, b: string, c: char)
    requires c !in a && |b| >= 1 && b[0] == c
    ensures TakeUntil(a + b, c) == Some((a, b))
  {
    var s := a + b;
    if a == [] {
      assert s == b;
    } else {
      assert s[0] == a[0] != c;
      assert s[1..] == a[1..] + b;
      TakeUntilFirst(a[1..], b, c);
      assert [a[0]] + a[1..] == a;
    }
  }
}
