/** Python's `','.join(values)` and `value.split(',')`, the serialisation of
    a domain set into one stored string (app.py, `post_visited_links` and
    `get_visited_links`). */
module CommaList {
  import opened Sequences

  /** `s.split(',')`: the pieces between commas, always at least one. */
  function Split(s: string): (r: seq<string>)
    ensures |r| == multiset(s)[','] + 1
    ensures forall i :: 0 <= i < |r| ==> ',' !in r[i]
    decreases |s|
  {
    if |s| == 0 then [""]
    else
      assert s == [s[0]] + s[1..];
      var t := Split(s[1..]);
      if s[0] == ',' then [""] + t
      else [[s[0]] + t[0]] + t[1..]
  }

  /** `','.join(xs)`. */
  function Join(xs: seq<string>): string
  {
    if |xs| == 0 then ""
    else if |xs| == 1 then xs[0]
    else xs[0] + "," + Join(xs[1..])
  }

  /** The set of pieces of `s.split(',')`. */
  function SplitSet(s: string): set<string>
  {
    set x | x in Split(s)
  }

  /** A comma-free string is one piece. */
  lemma {:induction false} SplitNoComma(s: string)
    requires ',' !in s
    ensures Split(s) == [s]
    decreases |s|
  {
    if |s| > 0 {
      assert s == [s[0]] + s[1..];
      SplitNoComma(s[1..]);
    }
  }

  /** Splitting `a,t` with a comma-free `a` peels off `a`. */
  lemma {:induction false} SplitAfterPiece(a: string, t: string)
    requires ',' !in a
    ensures Split(a + "," + t) == [a] + Split(t)
    decreases |a|
  {
    if |a| == 0 {
      assert a + "," + t == [','] + t;
      assert (a + "," + t)[1..] == t;
    } else {
      assert (a + "," + t)[1..] == a[1..] + "," + t;
      assert a == [a[0]] + a[1..];
      SplitAfterPiece(a[1..], t);
    }
  }

  /** Round trip one way: splitting a join of comma-free pieces gives them
      back, provided there is at least one piece (`','.join([])` is `""`,
      which splits to `[""]`). */
  lemma {:induction false} SplitJoin(xs: seq<string>)
    requires |xs| > 0
    requires forall i :: 0 <= i < |xs| ==> ',' !in xs[i]
    ensures Split(Join(xs)) == xs
    decreases |xs|
  {
    if |xs| == 1 {
      SplitNoComma(xs[0]);
    } else {
      SplitJoin(xs[1..]);
      SplitAfterPiece(xs[0], Join(xs[1..]));
      assert xs == [xs[0]] + xs[1..];
    }
  }

  /** Round trip the other way: joining the pieces of any string rebuilds it. */
  lemma {:induction false} JoinSplit(s: string)
    ensures Join(Split(s)) == s
    decreases |s|
  {
    if |s| > 0 {
      var c, rest := s[0], s[1..];
      assert s == [c] + rest;
      var t := Split(rest);
      JoinSplit(rest);
      if c == ',' {
        assert Split(s) == [""] + t;
        JoinCons("", t);
      } else {
        var r := Split(s);
        assert r == [[c] + t[0]] + t[1..];
        assert r[1..] == t[1..];
        JoinExtendHead(c, t, r);
      }
    }
  }

  lemma JoinCons(a: string, xs: seq<string>)
    requires |xs| > 0
    ensures Join([a] + xs) == a + "," + Join(xs)
  {
    assert ([a] + xs)[1..] == xs;
  }

  /** Putting a character in front of the first piece puts it in front of
      the join. */
  lemma JoinExtendHead(c: char, t: seq<string>, r: seq<string>)
    requires |r| == |t| > 0 && r[0] == [c] + t[0] && r[1..] == t[1..]
    ensures Join(r) == [c] + Join(t)
  {
    if |t| > 1 {
      var j := Join(t[1..]);
      assert Join(r) == r[0] + "," + j;
      assert Join(t) == t[0] + "," + j;
    }
  }

  /** The empty join is the one case whose split set is not the joined set. */
  lemma SplitEmptyJoin()
    ensures SplitSet(Join([])) == {""}
  {
  }

  /** Joining the distinct elements of a non-empty comma-free set and
      splitting again gives the set back, with no piece repeated. */
  lemma JoinedSetRoundTrip(xs: seq<string>)
    requires |xs| > 0 && Distinct(xs)
    requires forall i :: 0 <= i < |xs| ==> ',' !in xs[i]
    ensures SplitSet(Join(xs)) == set x | x in xs
    ensures |Split(Join(xs))| == |xs| && Distinct(Split(Join(xs)))
  {
    SplitJoin(xs);
  }
}
