/** Strings as sequences of characters: the order Java's `String.compareTo`
    imposes, and splitting on / joining with a literal delimiter. */
module Text {

  /** `a` sorts before or equal to `b`: the first differing character decides,
      and a proper prefix sorts first. */
  predicate LexLe(a: string, b: string)
    decreases |a|
  {
    if |a| == 0 then true
    else if |b| == 0 then false
    else if a[0] != b[0] then a[0] < b[0]
    else LexLe(a[1..], b[1..])
  }

  lemma {:induction false} LexLeReflexive(a: string)
    ensures LexLe(a, a)
    decreases |a|
  {
    if |a| > 0 {
      LexLeReflexive(a[1..]);
    }
  }

  lemma {:induction false} LexLeTotal(a: string, b: string)
    ensures LexLe(a, b) || LexLe(b, a)
    decreases |a|
  {
    if |a| > 0 && |b| > 0 && a[0] == b[0] {
      LexLeTotal(a[1..], b[1..]);
    }
  }

  lemma {:induction false} LexLeAntisymmetric(a: string, b: string)
    requires LexLe(a, b) && LexLe(b, a)
    ensures a == b
    decreases |a|
  {
    if |a| > 0 && |b| > 0 {
      LexLeAntisymmetric(a[1..], b[1..]);
      assert a == [a[0]] + a[1..] && b == [b[0]] + b[1..];
    }
  }

  lemma {:induction false} LexLeTransitive(a: string, b: string, c: string)
    requires LexLe(a, b) && LexLe(b, c)
    ensures LexLe(a, c)
    decreases |a|
  {
    if |a| > 0 && |b| > 0 && |c| > 0 && a[0] == b[0] && b[0] == c[0] {
      LexLeTransitive(a[1..], b[1..], c[1..]);
    }
  }

  /** Splits `s` at every occurrence of the literal delimiter `d`, scanning from
      the left; `cur` is the piece collected so far. */
  function SplitFrom(s: string, d: string, cur: string): (r: seq<string>)
    requires |d| > 0
    ensures |r| >= 1
    decreases |s|
  {
    if |s| == 0 then [cur]
    else if d <= s then [cur] + SplitFrom(s[|d|..], d, "")
    else SplitFrom(s[1..], d, cur + [s[0]])
  }

  /** The pieces of `s` between occurrences of the literal delimiter `d`. */
  function Split(s: string, d: string): seq<string>
    requires |d| > 0
  {
    SplitFrom(s, d, "")
  }

  /** The pieces written one after another with `d` between neighbours. */
  function Join(parts: seq<string>, d: string): string
    requires |parts| >= 1
  {
    if |parts| == 1 then parts[0] else parts[0] + d + Join(parts[1..], d)
  }

  lemma {:induction false} JoinSplitFrom(s: string, d: string, cur: string)
    requires |d| > 0
    ensures Join(SplitFrom(s, d, cur), d) == cur + s
    decreases |s|
  {
    if |s| == 0 {
    } else if d <= s {
      JoinSplitFrom(s[|d|..], d, "");
      assert s == d + s[|d|..];
    } else {
      JoinSplitFrom(s[1..], d, cur + [s[0]]);
      assert s == [s[0]] + s[1..];
    }
  }

  /** Splitting loses nothing: joining the pieces gives back the input. */
  lemma JoinSplit(s: string, d: string)
    requires |d| > 0
    ensures Join(Split(s, d), d) == s
  {
    JoinSplitFrom(s, d, "");
  }

  /** Different strings never split into the same pieces. */
  lemma SplitInjective(s: string, t: string, d: string)
    requires |d| > 0
    ensures Split(s, d) == Split(t, d) ==> s == t
  {
    JoinSplit(s, d);
    JoinSplit(t, d);
  }

  /** `a` holds no character that could start the delimiter. */
  predicate FreeOf(a: string, d: string)
    requires |d| > 0
  {
    forall k :: 0 <= k < |a| ==> a[k] != d[0]
  }

  /** Characters that cannot start the delimiter are simply collected. */
  lemma {:induction false} SplitFromSkips(a: string, rest: string, d: string, cur: string)
    requires |d| > 0 && FreeOf(a, d)
    ensures SplitFrom(a + rest, d, cur) == SplitFrom(rest, d, cur + a)
    decreases |a|
  {
    if |a| > 0 {
      assert (a + rest)[0] == a[0] && (a + rest)[1..] == a[1..] + rest;
      assert !(d <= a + rest);
      SplitFromSkips(a[1..], rest, d, cur + [a[0]]);
      assert cur + [a[0]] + a[1..] == cur + a;
    } else {
      assert a + rest == rest && cur + a == cur;
    }
  }

  /** Joining pieces that hold no character starting the delimiter and
      splitting again gives back the pieces. */
  lemma {:induction false} SplitJoin(parts: seq<string>, d: string)
    requires |d| > 0 && |parts| >= 1
    requires forall i :: 0 <= i < |parts| ==> FreeOf(parts[i], d)
    ensures Split(Join(parts, d), d) == parts
    decreases |parts|
  {
    var a := parts[0];
    if |parts| == 1 {
      SplitFromSkips(a, "", d, "");
      assert a + "" == a && "" + a == a;
    } else {
      var rest := Join(parts[1..], d);
      SplitFromSkips(a, d + rest, d, "");
      assert a + d + rest == a + (d + rest);
      assert (d + rest)[|d|..] == rest;
      assert "" + a == a;
      SplitJoin(parts[1..], d);
      assert parts == [a] + parts[1..];
    }
  }

  /** `parts` without its trailing empty pieces. */
  function DropTrailingEmpty(parts: seq<string>): (r: seq<string>)
    ensures r <= parts
    ensures forall k :: |r| <= k < |parts| ==> parts[k] == ""
    ensures r == [] || r[|r| - 1] != ""
    decreases |parts|
  {
    if parts == [] || parts[|parts| - 1] != "" then parts
    else DropTrailingEmpty(parts[..|parts| - 1])
  }

  /** Java's `String.split` on a delimiter free of regular-expression
      metacharacters: the empty string gives one empty piece; any other string
      gives the pieces of the literal split less the trailing empty ones. */
  function SplitTrimmed(s: string, d: string): seq<string>
    requires |d| > 0
  {
    if s == "" then [""] else DropTrailingEmpty(Split(s, d))
  }

  /** The literal split of `s` ends with a non-empty piece, so trimming keeps
      every piece. */
  predicate EndsWithPiece(s: string, d: string)
    requires |d| > 0
  {
    var parts := Split(s, d);
    parts[|parts| - 1] != ""
  }

  /** A join of pieces free of the delimiter's first character, the last one
      non-empty, splits back into exactly those pieces. */
  lemma SplitTrimmedJoin(parts: seq<string>, d: string)
    requires |d| > 0 && |parts| >= 1
    requires forall i :: 0 <= i < |parts| ==> FreeOf(parts[i], d)
    requires parts[|parts| - 1] != ""
    ensures SplitTrimmed(Join(parts, d), d) == parts
  {
    SplitJoin(parts, d);
    if |parts| > 1 {
      assert |Join(parts, d)| >= |d|;
    }
  }

  /** Trimming loses information: a string and the same string followed by the
      delimiter split into the same pieces. */
  lemma SplitTrimmedMerges()
    ensures "a;;;" != "a"
    ensures SplitTrimmed("a;;;", ";;;") == SplitTrimmed("a", ";;;") == ["a"]
  {
    assert Join(["a", ""], ";;;") == "a" + ";;;" + "" == "a;;;";
    assert FreeOf("a", ";;;") && FreeOf("", ";;;");
    SplitJoin(["a", ""], ";;;");
    SplitTrimmedJoin(["a"], ";;;");
  }

  /** Strings whose literal split ends with a non-empty piece keep all their
      pieces, so different such strings split differently. */
  lemma SplitTrimmedInjective(s: string, t: string, d: string)
    requires |d| > 0 && EndsWithPiece(s, d) && EndsWithPiece(t, d)
    ensures SplitTrimmed(s, d) == Split(s, d)
    ensures SplitTrimmed(s, d) == SplitTrimmed(t, d) ==> s == t
  {
    assert Split("", d) == [""];
    SplitInjective(s, t, d);
  }
}
