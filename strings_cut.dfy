/** `strings.SplitN(s, sep, 2)`: cutting a string at the first occurrence of
    a one-character separator. */
module StringsCut {
  import opened SeqFacts

  /** Text before the first `sep`, or all of `s` when there is none. */
  function Before(s: string, sep: char): (r: string)
    ensures sep !in r
    ensures sep !in s ==> r == s
  {
    if s == [] then []
    else if s[0] == sep then []
    else
      var r := Before(s[1..], sep);
      assert sep !in s ==> sep !in s[1..] && s == [s[0]] + s[1..];
      [s[0]] + r
  }

  /** When `sep` occurs, `Before` stops just in front of its first occurrence. */
  lemma {:induction false} BeforeFound(s: string, sep: char)
    requires sep in s
    ensures |Before(s, sep)| < |s| && s[..|Before(s, sep)| + 1] == Before(s, sep) + [sep]
  {
    if s[0] != sep {
      assert sep in s[1..] by {
        var i :| 0 <= i < |s| && s[i] == sep;
        assert s[1..][i - 1] == sep;
      }
      BeforeFound(s[1..], sep);
      var r := Before(s[1..], sep);
      assert Before(s, sep) == [s[0]] + r;
      assert s[..|r| + 2] == [s[0]] + s[1..][..|r| + 1];
    }
  }

  /** `strings.SplitN(s, sep, 2)`: the whole of `s` when `sep` does not occur
      in it, otherwise the text before and the text after its first
      occurrence. */
  function SplitFirst(s: string, sep: char): (parts: seq<string>)
    ensures |parts| == 1 || |parts| == 2
    ensures |parts| == 1 <==> sep !in s
    ensures |parts| == 1 ==> parts[0] == s
    ensures |parts| == 2 ==> s == parts[0] + [sep] + parts[1] && sep !in parts[0]
    ensures parts[0] == Before(s, sep)
  {
    if sep !in s then [s]
    else
      var b := Before(s, sep);
      BeforeFound(s, sep);
      assert s == s[..|b| + 1] + s[|b| + 1..];
      [b, s[|b| + 1..]]
  }

  /** Characters without `sep` put in front of a text do not move its first `sep`. */
  lemma {:induction false} BeforePrefixed(l: string, s: string, sep: char)
    requires sep !in l
    ensures Before(l + s, sep) == l + Before(s, sep)
  {
    if l == [] {
      assert l + s == s;
    } else {
      var t := l + s;
      assert t[0] == l[0];
      assert t[1..] == l[1..] + s;
      BeforePrefixed(l[1..], s, sep);
      assert [l[0]] + (l[1..] + Before(s, sep)) == l + Before(s, sep);
    }
  }

  /** The text before the first `sep` of `a + sep + b` is `a` when `a` has none. */
  lemma {:induction false} BeforeSeparator(a: string, b: string, sep: char)
    requires sep !in a
    ensures Before(a + [sep] + b, sep) == a
  {
    BeforePrefixed(a, [sep] + b, sep);
    assert ([sep] + b)[0] == sep;
    assert a + [sep] + b == a + ([sep] + b);
    assert a + [] == a;
  }

  /** What follows a `sep` cannot move the first `sep`. */
  lemma {:induction false} BeforeExtended(a: string, b: string, sep: char)
    requires sep in a
    ensures Before(a + b, sep) == Before(a, sep)
  {
    assert (a + b)[0] == a[0];
    if a[0] != sep {
      assert (a + b)[1..] == a[1..] + b;
      BeforeExtended(a[1..], b, sep);
    }
  }
}
