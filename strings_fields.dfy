/** `strings.TrimSpace` and `strings.Fields`, with ASCII whitespace only. */
module StringsFields {
  import opened StringsSplit
  import opened StringsCut
  import opened SeqFacts

  /** ASCII whitespace as Go's `unicode.IsSpace` sees it below U+0080:
      space, tab, line feed, vertical tab, form feed, carriage return. */
  predicate IsSpace(c: char) {
    c == ' ' || ('\t' <= c <= '\r')
  }

  predicate AllSpace(s: string) {
    forall i :: 0 <= i < |s| ==> IsSpace(s[i])
  }

  predicate NoSpace(s: string) {
    forall i :: 0 <= i < |s| ==> !IsSpace(s[i])
  }

  /** `strings.TrimLeft(s, whitespace)`. */
  function TrimLeft(s: string): (r: string)
    ensures |r| <= |s| && r == s[|s| - |r|..]
    ensures AllSpace(s[..|s| - |r|])
    ensures r == [] || !IsSpace(r[0])
  {
    if s != [] && IsSpace(s[0]) then
      var r := TrimLeft(s[1..]);
      assert s[..|s| - |r|] == [s[0]] + s[1..][..|s| - 1 - |r|];
      r
    else s
  }

  /** `strings.TrimRight(s, whitespace)`. */
  function TrimRight(s: string): (r: string)
    ensures |r| <= |s| && r == s[..|r|]
    ensures AllSpace(s[|r|..])
    ensures r == [] || !IsSpace(r[|r| - 1])
  {
    if s != [] && IsSpace(s[|s| - 1]) then
      var r := TrimRight(s[..|s| - 1]);
      assert s[|r|..] == s[..|s| - 1][|r|..] + [s[|s| - 1]];
      r
    else s
  }

  /** `strings.TrimSpace(s)`: `s` without its leading and trailing whitespace. */
  function TrimSpace(s: string): (r: string)
    ensures |r| <= |s|
    ensures r == [] || (!IsSpace(r[0]) && !IsSpace(r[|r| - 1]))
  {
    var l := TrimLeft(s);
    var r := TrimRight(l);
    assert r != [] ==> r[0] == l[0];
    r
  }

  /** What `TrimSpace` removes is whitespace at either end. */
  lemma TrimSpacePadding(s: string) returns (pre: string, post: string)
    ensures s == pre + TrimSpace(s) + post
    ensures AllSpace(pre) && AllSpace(post)
  {
    var l := TrimLeft(s);
    var r := TrimRight(l);
    pre, post := s[..|s| - |l|], l[|r|..];
    TakeDrop(s, |s| - |l|);
    TakeDrop(l, |r|);
    AppendAssoc(pre, r, post);
  }

  /** Number of leading characters of `s` that are not whitespace. */
  function WordLength(s: string): (n: nat)
    ensures n <= |s| && NoSpace(s[..n])
    ensures n < |s| ==> IsSpace(s[n])
  {
    if s == [] || IsSpace(s[0]) then 0
    else
      var n := WordLength(s[1..]);
      assert s[..n + 1] == [s[0]] + s[1..][..n];
      n + 1
  }

  /** `strings.Fields(s)`: the maximal runs of non-whitespace characters. */
  function Fields(s: string): (fields: seq<string>)
    decreases |s|
    ensures forall k :: 0 <= k < |fields| ==> fields[k] != [] && NoSpace(fields[k])
  {
    if s == [] then []
    else if IsSpace(s[0]) then Fields(s[1..])
    else
      var n := WordLength(s);
      [s[..n]] + Fields(s[n..])
  }

  /** The length of a word does not depend on what follows the first space. */
  lemma {:induction false} WordLengthPrefix(a: string, b: string)
    requires WordLength(a) < |a|
    ensures WordLength(a + b) == WordLength(a)
  {
    assert (a + b)[0] == a[0];
    if !IsSpace(a[0]) {
      assert (a + b)[1..] == a[1..] + b;
      WordLengthPrefix(a[1..], b);
    }
  }

  /** A word followed by nothing or by a space is all of its own length. */
  lemma {:induction false} WordLengthAll(a: string, b: string)
    requires NoSpace(a)
    requires b == [] || IsSpace(b[0])
    ensures WordLength(a + b) == |a|
  {
    if a == [] {
      assert a + b == b;
    } else {
      assert (a + b)[0] == a[0];
      assert (a + b)[1..] == a[1..] + b;
      WordLengthAll(a[1..], b);
    }
  }

  /** One whitespace character separates the fields of both sides. */
  lemma {:induction false} FieldsAtSpace(a: string, c: char, b: string)
    requires IsSpace(c)
    ensures Fields(a + [c] + b) == Fields(a) + Fields(b)
    decreases |a|
  {
    var s := a + [c] + b;
    if a == [] {
      assert s[1..] == b;
    } else if IsSpace(a[0]) {
      assert s[1..] == a[1..] + [c] + b;
      FieldsAtSpace(a[1..], c, b);
    } else {
      var n := WordLength(a);
      if n < |a| {
        WordLengthPrefix(a, [c] + b);
        assert s == a + ([c] + b);
        assert s[..n] == a[..n];
        assert s[n..] == a[n..] + [c] + b;
        FieldsAtSpace(a[n..], c, b);
      } else {
        assert a[..n] == a;
        WordLengthAll(a, [c] + b);
        assert s == a + ([c] + b);
        assert s[..n] == a;
        assert s[n..] == [c] + b;
        assert ([c] + b)[1..] == b;
        assert a[n..] == [];
      }
    }
  }

  lemma {:induction false} FieldsOfSpaces(s: string)
    requires AllSpace(s)
    ensures Fields(s) == []
  {
    if s != [] {
      FieldsOfSpaces(s[1..]);
    }
  }

  /** Leading and trailing whitespace do not change the fields. */
  lemma FieldsPadded(l: string, s: string, r: string)
    requires AllSpace(l) && AllSpace(r)
    ensures Fields(l + s + r) == Fields(s)
  {
    FieldsLeftPadded(l, s + r);
    assert l + s + r == l + (s + r);
    FieldsRightPadded(s, r);
  }

  lemma FieldsRightPadded(s: string, r: string)
    requires AllSpace(r)
    ensures Fields(s + r) == Fields(s)
  {
    if r == [] {
      assert s + r == s;
    } else {
      assert s + r == s + [r[0]] + r[1..];
      assert IsSpace(r[0]);
      assert AllSpace(r[1..]) by {
        forall i | 0 <= i < |r[1..]| ensures IsSpace(r[1..][i]) {
          assert r[1..][i] == r[i + 1];
        }
      }
      FieldsAtSpace(s, r[0], r[1..]);
      FieldsOfSpaces(r[1..]);
      assert Fields(s) + [] == Fields(s);
    }
  }

  lemma {:induction false} FieldsLeftPadded(l: string, s: string)
    requires AllSpace(l)
    ensures Fields(l + s) == Fields(s)
  {
    if l == [] {
      assert l + s == s;
    } else {
      assert (l + s)[0] == l[0];
      assert IsSpace(l[0]);
      assert (l + s)[1..] == l[1..] + s;
      assert AllSpace(l[1..]) by {
        forall i | 0 <= i < |l[1..]| ensures IsSpace(l[1..][i]) {
          assert l[1..][i] == l[i + 1];
        }
      }
      FieldsLeftPadded(l[1..], s);
    }
  }

  /** Cutting a text at a non-space character `c` and taking its fields
      gives the same whether or not the text is padded with whitespace. */
  lemma FieldsBeforePadded(l: string, m: string, r: string, c: char)
    requires AllSpace(l) && AllSpace(r)
    requires !IsSpace(c)
    ensures Fields(Before(l + m + r, c)) == Fields(Before(m, c))
  {
    assert c !in l && c !in r;
    var mr := m + r;
    assert l + m + r == l + mr;
    BeforePrefixed(l, mr, c);
    FieldsLeftPadded(l, Before(mr, c));
    assert Fields(Before(l + m + r, c)) == Fields(Before(mr, c));
    if c in m {
      BeforeExtended(m, r, c);
    } else {
      NoSpaceCutPadded(m, r, c);
    }
  }

  lemma NoSpaceCutPadded(m: string, r: string, c: char)
    requires AllSpace(r) && !IsSpace(c) && c !in m
    ensures Fields(Before(m + r, c)) == Fields(Before(m, c))
  {
    assert c !in r;
    BeforePrefixed(m, r, c);
    assert Before(r, c) == r;
    assert Before(m + r, c) == m + r;
    assert Before(m, c) == m;
    FieldsRightPadded(m, r);
  }

  /** Trimming a text before cutting it at `c` does not change its fields. */
  lemma FieldsBeforeTrimmed(s: string, c: char)
    requires !IsSpace(c)
    ensures Fields(Before(TrimSpace(s), c)) == Fields(Before(s, c))
  {
    var pre, post := TrimSpacePadding(s);
    FieldsBeforePadded(pre, TrimSpace(s), post, c);
  }

  /** A word on its own is its only field. */
  lemma FieldsOfWord(w: string)
    requires w != [] && NoSpace(w)
    ensures Fields(w) == [w]
  {
    WordLengthAll(w, []);
    assert w + [] == w;
    assert w[..|w|] == w;
  }

  /** `Fields` undoes joining words with single spaces. */
  lemma {:induction false} FieldsJoin(words: seq<string>)
    requires forall k :: 0 <= k < |words| ==> words[k] != [] && NoSpace(words[k])
    ensures Fields(Join(words, ' ')) == words
  {
    if |words| == 1 {
      FieldsOfWord(words[0]);
    } else if |words| > 1 {
      FieldsJoin(words[1..]);
      FieldsAtSpace(words[0], ' ', Join(words[1..], ' '));
      FieldsOfWord(words[0]);
      assert [words[0]] + words[1..] == words;
    }
  }
}
