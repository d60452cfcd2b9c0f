/** `strings.Split` and `strings.Join` for a one-character separator, on
    strings of characters. */
module StringsSplit {
  import opened SeqFacts

  /** `strings.Split(s, sep)` for a one-character separator: the pieces between
      the separators, so one more piece than there are separators. */
  function Split(s: string, sep: char): (parts: seq<string>)
    ensures |parts| > 0
  {
    if s == [] then [[]]
    else
      var rest := Split(s[1..], sep);
      if s[0] == sep then [[]] + rest
      else [[s[0]] + rest[0]] + rest[1..]
  }

  /** `strings.Join(parts, sep)`, the inverse of `Split`. */
  function Join(parts: seq<string>, sep: char): string {
    if |parts| == 0 then []
    else if |parts| == 1 then parts[0]
    else parts[0] + [sep] + Join(parts[1..], sep)
  }

  /** `Join` of at least two pieces. */
  lemma JoinCons(p: string, rest: seq<string>, sep: char)
    requires |rest| > 0
    ensures Join([p] + rest, sep) == p + [sep] + Join(rest, sep)
  {
    ConsParts(p, rest);
  }

  lemma SplitJoinSeparator(x: string, sep: char)
    requires Join(Split(x, sep), sep) == x
    ensures Join(Split([sep] + x, sep), sep) == [sep] + x
  {
    SplitAtSeparator(x, sep);
    JoinCons([], Split(x, sep), sep);
    AppendEmpty([sep] + x);
  }

  lemma SplitJoinOther(c: char, x: string, sep: char)
    requires c != sep
    requires Join(Split(x, sep), sep) == x
    ensures Join(Split([c] + x, sep), sep) == [c] + x
  {
    var rest := Split(x, sep);
    SplitAtOther(c, x, sep);
    if |rest| == 1 {
      AppendEmpty([[c] + rest[0]]);
      assert rest[1..] == [];
    } else {
      HeadTail(rest);
      JoinCons(rest[0], rest[1..], sep);
      JoinCons([c] + rest[0], rest[1..], sep);
      AppendAssoc([c], rest[0], [sep]);
      AppendAssoc([c], rest[0] + [sep], Join(rest[1..], sep));
    }
  }

  lemma {:induction false} SplitJoin(s: string, sep: char)
    ensures Join(Split(s, sep), sep) == s
  {
    if s != [] {
      HeadTail(s);
      SplitJoin(s[1..], sep);
      if s[0] == sep {
        SplitJoinSeparator(s[1..], sep);
      } else {
        SplitJoinOther(s[0], s[1..], sep);
      }
    }
  }

  lemma {:induction false} JoinSplit(parts: seq<string>, sep: char)
    requires |parts| > 0
    requires forall k :: 0 <= k < |parts| ==> sep !in parts[k]
    ensures Split(Join(parts, sep), sep) == parts
  {
    if |parts| == 1 {
      SplitNoSeparator(parts[0], sep);
    } else {
      JoinSplit(parts[1..], sep);
      assert Join(parts, sep) == parts[0] + [sep] + Join(parts[1..], sep);
      SplitConcat(parts[0], Join(parts[1..], sep), sep);
      SplitNoSeparator(parts[0], sep);
      assert [parts[0]] + parts[1..] == parts;
    }
  }

  /** No piece contains the separator. */
  lemma {:induction false} SplitPieces(s: string, sep: char)
    ensures forall k :: 0 <= k < |Split(s, sep)| ==> sep !in Split(s, sep)[k]
  {
    if s != [] {
      SplitPieces(s[1..], sep);
      var rest := Split(s[1..], sep);
      if s[0] != sep {
        var parts := Split(s, sep);
        assert parts[0] == [s[0]] + rest[0];
        assert forall k :: 1 <= k < |parts| ==> parts[k] == rest[k];
      }
    }
  }

  /** A text without the separator is a single piece. */
  lemma {:induction false} SplitNoSeparator(s: string, sep: char)
    requires sep !in s
    ensures Split(s, sep) == [s]
  {
    if s != [] {
      assert sep !in s[1..];
      SplitNoSeparator(s[1..], sep);
      assert s == [s[0]] + s[1..];
    }
  }

  /** `Split` of a text that starts with the separator. */
  lemma SplitAtSeparator(x: string, sep: char)
    ensures Split([sep] + x, sep) == [[]] + Split(x, sep)
  {
    assert ([sep] + x)[1..] == x;
  }

  /** `Split` of a text that starts with another character. */
  lemma SplitAtOther(c: char, x: string, sep: char)
    requires c != sep
    ensures Split([c] + x, sep) == [[c] + Split(x, sep)[0]] + Split(x, sep)[1..]
  {
    assert ([c] + x)[0] == c;
    assert ([c] + x)[1..] == x;
  }

  /** Growing the first piece commutes with appending further pieces. */
  lemma GrowFirstAppend(h: string, rest: seq<string>, tail: seq<string>)
    requires |rest| > 0
    ensures [h + (rest + tail)[0]] + (rest + tail)[1..] == ([h + rest[0]] + rest[1..]) + tail
  {
    assert (rest + tail)[0] == rest[0];
    assert (rest + tail)[1..] == rest[1..] + tail;
  }

  /** One more leading character on the left of the separator. */
  lemma SplitConcatStep(c: char, y: string, b: string, sep: char)
    requires Split(y + [sep] + b, sep) == Split(y, sep) + Split(b, sep)
    ensures Split([c] + (y + [sep] + b), sep) == Split([c] + y, sep) + Split(b, sep)
  {
    if c != sep {
      SplitAtOther(c, y + [sep] + b, sep);
      SplitAtOther(c, y, sep);
      GrowFirstAppend([c], Split(y, sep), Split(b, sep));
    } else {
      SplitAtSeparator(y + [sep] + b, sep);
      SplitAtSeparator(y, sep);
      assert [[]] + (Split(y, sep) + Split(b, sep)) == ([[]] + Split(y, sep)) + Split(b, sep);
    }
  }

  /** Splitting at a separator splits the pieces: `a + sep + b` gives the
      pieces of `a` followed by the pieces of `b`. */
  lemma {:induction false} SplitConcat(a: string, b: string, sep: char)
    ensures Split(a + [sep] + b, sep) == Split(a, sep) + Split(b, sep)
  {
    if a == [] {
      assert a + [sep] + b == [sep] + b;
      SplitAtSeparator(b, sep);
      assert Split(a, sep) == [[]];
    } else {
      SplitConcat(a[1..], b, sep);
      SplitConcatStep(a[0], a[1..], b, sep);
      assert a + [sep] + b == [a[0]] + (a[1..] + [sep] + b);
      assert [a[0]] + a[1..] == a;
    }
  }
  /** Every character of a joined text is a separator or comes from a piece. */
  lemma {:induction false} JoinChars(parts: seq<string>, sep: char, c: char)
    requires c in Join(parts, sep)
    ensures c == sep || exists k :: 0 <= k < |parts| && c in parts[k]
  {
    if |parts| > 1 {
      var rest := Join(parts[1..], sep);
      if c !in parts[0] && c != sep {
        assert c in rest;
        JoinChars(parts[1..], sep, c);
        var k :| 0 <= k < |parts[1..]| && c in parts[1..][k];
        assert parts[k + 1] == parts[1..][k];
      }
    }
  }
}
