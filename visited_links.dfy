/** The two endpoints of app.py with the web framework taken away:
    `post_visited_links` records the domains of a batch of links under the
    current second, and `get_visited_links` returns the distinct domains
    recorded in a half-open range of seconds `[to_, from_)`. The store is
    passed in explicitly instead of the module-level Redis client, and the
    current second is a parameter. */
module VisitedLinks {
  import opened Wrappers
  import opened DomainExtraction
  import opened Sequences
  import opened CommaList
  import opened Store

  /** What `get_visited_links` answers: the two 400 errors, in the order they
      are checked, or the domains. */
  datatype QueryResult =
    | MissingPair        // 400, loc ["query"]: a parameter is 0 (absent)
    | ToGreaterThanFrom  // 400, loc ["query", "to_"]
    | Found(domains: set<string>)

  /** What `post_visited_links` does: it stores a record, or it stops with the
      `IndexError` of `get_domain_from_link` on the first link the pattern
      does not match. */
  datatype PostResult = Recorded | Unmatched(link: string)

  /** The domains of one stored record. */
  function Bucket(m: map<int, string>, key: int): set<string>
  {
    if key in m then SplitSet(m[key]) else {}
  }

  /** The union of the records stored under the keys `lo .. hi - 1`. */
  function RangeUnion(m: map<int, string>, lo: int, hi: int): set<string>
    decreases hi - lo
  {
    if hi <= lo then {} else RangeUnion(m, lo, hi - 1) + Bucket(m, hi - 1)
  }

  /** `get_visited_links` as a function of the stored table. */
  function Query(m: map<int, string>, from: int, to: int): (r: QueryResult)
    ensures r == MissingPair <==> from == 0 || to == 0
    ensures r == ToGreaterThanFrom <==> from != 0 && to != 0 && to > from
  {
    if from == 0 || to == 0 then MissingPair
    else if to > from then ToGreaterThanFrom
    else Found(RangeUnion(m, to, from))
  }

  /** A domain is in the range union exactly when some stored key in
      `[lo, hi)` holds it. */
  lemma {:induction false} RangeUnionMembership(m: map<int, string>, lo: int, hi: int, d: string)
    ensures d in RangeUnion(m, lo, hi) <==>
      exists k :: lo <= k < hi && k in m && d in SplitSet(m[k])
    decreases hi - lo
  {
    if hi > lo {
      RangeUnionMembership(m, lo, hi - 1, d);
      if d in Bucket(m, hi - 1) {
        assert hi - 1 in m && d in SplitSet(m[hi - 1]);
      }
    }
  }

  /** Keys outside `[lo, hi)` do not matter to the range union. */
  lemma {:induction false} RangeUnionOutside(m: map<int, string>, lo: int, hi: int, key: int, v: string)
    requires key < lo || hi <= key
    ensures RangeUnion(m[key := v], lo, hi) == RangeUnion(m, lo, hi)
    decreases hi - lo
  {
    if hi > lo {
      RangeUnionOutside(m, lo, hi - 1, key, v);
    }
  }

  /** `list(range(lo, hi))`: the keys `lo, lo + 1, ..., hi - 1`. */
  function Range(lo: int, hi: int): (r: seq<int>)
    ensures |r| == if lo <= hi then hi - lo else 0
    ensures forall i :: 0 <= i < |r| ==> r[i] == lo + i
    decreases hi - lo
  {
    if hi <= lo then [] else Range(lo, hi - 1) + [hi - 1]
  }

  /** `list(filter(lambda x: x is not None, values))`. */
  function Present(vals: seq<Option<string>>): (r: seq<string>)
    ensures forall v :: v in r <==> Some(v) in vals
  {
    if |vals| == 0 then []
    else
      var init := vals[..|vals| - 1];
      var last := vals[|vals| - 1];
      assert forall x :: x in vals <==> x in init || x == last;
      Present(init) + (if last.Some? then [last.value] else [])
  }

  /** The set the nested loops of `get_visited_links` build from the
      present values. */
  function UnionOf(vs: seq<string>): set<string>
  {
    if |vs| == 0 then {} else UnionOf(vs[..|vs| - 1]) + SplitSet(vs[|vs| - 1])
  }

  /** Fetching the keys of a range, dropping the missing ones and uniting
      their splits is the range union. */
  lemma {:induction false} FetchedUnion(m: map<int, string>, lo: int, hi: int)
    ensures UnionOf(Present(Lookups(m, Range(lo, hi)))) == RangeUnion(m, lo, hi)
    decreases hi - lo
  {
    if hi > lo {
      FetchedUnion(m, lo, hi - 1);
      var ks := Range(lo, hi);
      assert ks[..|ks| - 1] == Range(lo, hi - 1);
      var ls := Lookups(m, ks);
      assert ls[..|ls| - 1] == Lookups(m, Range(lo, hi - 1));
      var prev := Present(Lookups(m, Range(lo, hi - 1)));
      var ps := Present(ls);
      if hi - 1 in m {
        assert ps == prev + [m[hi - 1]];
        assert ps[..|ps| - 1] == prev;
      } else {
        assert ps == prev;
      }
    }
  }

  /** The body of `get_visited_links`: the two validations in order, then a
      bulk fetch of `[to_, from_)` and the union of the split values. */
  method GetVisitedLinks(store: MockingRedis, from: int, to: int) returns (res: QueryResult)
    ensures res == Query(store.saveRedis, from, to)
  {
    if from == 0 || to == 0 {
      return MissingPair;
    }
    if to > from {
      return ToGreaterThanFrom;
    }
    var keys := Range(to, from);
    var all := store.Mget(keys);
    assert all == Lookups(store.saveRedis, keys);
    var present := Present(all);
    var domains: set<string> := {};
    var i := 0;
    while i < |present|
      invariant 0 <= i <= |present|
      invariant domains == UnionOf(present[..i])
    {
      var parts := Split(present[i]);
      var j := 0;
      while j < |parts|
        invariant 0 <= j <= |parts|
        invariant domains == UnionOf(present[..i]) + (set x | x in parts[..j])
      {
        assert parts[..j + 1] == parts[..j] + [parts[j]];
        domains := domains + {parts[j]};
        j := j + 1;
      }
      assert parts[..j] == parts;
      assert present[..i + 1][..i] == present[..i];
      i := i + 1;
    }
    assert present[..i] == present;
    FetchedUnion(store.saveRedis, to, from);
    res := Found(domains);
  }

  /** The answer on success: every domain of every record stored in
      `[to_, from_)`, and nothing else. */
  lemma QueryMembership(m: map<int, string>, from: int, to: int, d: string)
    requires from != 0 && to != 0 && to <= from
    ensures Query(m, from, to).Found?
    ensures d in Query(m, from, to).domains <==>
      exists k :: to <= k < from && k in m && d in SplitSet(m[k])
  {
    RangeUnionMembership(m, to, from, d);
  }

  /** The range excludes `from_`: a record stored exactly there never shows. */
  lemma QueryExcludesFrom(m: map<int, string>, from: int, to: int, v: string)
    ensures Query(m[from := v], from, to) == Query(m, from, to)
  {
    if from != 0 && to != 0 && to <= from {
      RangeUnionOutside(m, to, from, from, v);
    }
  }

  /** `to_ == from_` is accepted and gives the empty range. */
  lemma QueryEmptyRange(m: map<int, string>, t: int)
    requires t != 0
    ensures Query(m, t, t) == Found({})
  {
  }

  /** The rejected requests of the source's tests. */
  lemma QueryRejections(m: map<int, string>)
    ensures Query(m, 0, 1635496510) == MissingPair
    ensures Query(m, 1635502200, 1635502327) == ToGreaterThanFrom
  {
  }

  /** The value stored for a domain set: `','.join` of the set in some
      iteration order. Only its split set matters, and the split has one
      piece per domain. */
  predicate Serializes(v: string, ds: set<string>)
  {
    if ds == {} then v == "" else SplitSet(v) == ds && |Split(v)| == |ds|
  }

  /** Extraction over a batch of links, in order: the set of domains, or the
      first link the pattern does not match. */
  datatype Extraction = Domains(found: set<string>) | NoMatch(link: string)

  function ExtractAll(uw: char -> bool, links: seq<string>): (r: Extraction)
    ensures r.NoMatch? ==> r.link in links && Extract(uw, r.link).None?
    decreases |links|
  {
    if |links| == 0 then Domains({})
    else
      var prefix := links[..|links| - 1];
      var last := links[|links| - 1];
      match ExtractAll(uw, prefix)
      case NoMatch(l) => assert l in prefix; NoMatch(l)
      case Domains(ds) =>
        match Extract(uw, last)
        case None => NoMatch(last)
        case Some(d) => Domains(ds + {d})
  }

  /** A batch fails exactly when one of its links does not match. */
  lemma {:induction false} ExtractAllFails(uw: char -> bool, links: seq<string>)
    ensures ExtractAll(uw, links).NoMatch? <==>
      exists i :: 0 <= i < |links| && Extract(uw, links[i]).None?
    decreases |links|
  {
    if |links| > 0 {
      var prefix := links[..|links| - 1];
      ExtractAllFails(uw, prefix);
      assert forall i :: 0 <= i < |prefix| ==> prefix[i] == links[i];
    }
  }

  /** On success the batch's set holds exactly the domains of its links. */
  lemma {:induction false} ExtractAllDomains(uw: char -> bool, links: seq<string>, d: string)
    requires ExtractAll(uw, links).Domains?
    ensures d in ExtractAll(uw, links).found <==>
      exists i :: 0 <= i < |links| && Extract(uw, links[i]) == Some(d)
    decreases |links|
  {
    if |links| > 0 {
      var prefix := links[..|links| - 1];
      ExtractAllDomains(uw, prefix, d);
      assert forall i :: 0 <= i < |prefix| ==> prefix[i] == links[i];
    }
  }

  /** Every recorded domain is non-empty and free of commas, so the join
      and split of the record are inverse. */
  lemma ExtractedDomainsHaveNoComma(uw: char -> bool, links: seq<string>, d: string)
    requires ExtractAll(uw, links).Domains? && d in ExtractAll(uw, links).found
    ensures |d| > 0 && ',' !in d
  {
    ExtractAllDomains(uw, links, d);
    var i :| 0 <= i < |links| && Extract(uw, links[i]) == Some(d);
  }

  /** Lists the elements of a set once each, in an arbitrary order: the
      iteration order of a Python set, which `','.join` follows. */
  method Ordering(ds: set<string>) returns (xs: seq<string>)
    ensures (set x | x in xs) == ds
    ensures Distinct(xs) && |xs| == |ds|
  {
    xs := [];
    var rest := ds;
    while rest != {}
      invariant (set x | x in xs) + rest == ds
      invariant (set x | x in xs) !! rest
      invariant Distinct(xs) && |xs| + |rest| == |ds|
      decreases |rest|
    {
      var d :| d in rest;
      xs := xs + [d];
      rest := rest - {d};
    }
  }

  /** The serialised record of a set of domains: a join of its distinct
      elements splits back to exactly the set. */
  lemma OrderingSerializes(xs: seq<string>, ds: set<string>)
    requires (set x | x in xs) == ds && Distinct(xs) && |xs| == |ds|
    requires forall d :: d in ds ==> ',' !in d
    ensures Serializes(Join(xs), ds)
  {
    if ds != {} {
      assert |xs| > 0;
      assert forall i :: 0 <= i < |xs| ==> xs[i] in ds;
      JoinedSetRoundTrip(xs);
    }
  }

  /** Once a prefix of the batch fails, the whole batch fails the same way:
      the exception stops the loop at the first link that does not match. */
  lemma {:induction false} ExtractAllStops(uw: char -> bool, links: seq<string>, n: nat)
    requires n <= |links| && ExtractAll(uw, links[..n]).NoMatch?
    ensures ExtractAll(uw, links) == ExtractAll(uw, links[..n])
    decreases |links| - n
  {
    if n < |links| {
      var next := links[..n + 1];
      assert next[..n] == links[..n];
      ExtractAllStops(uw, links, n + 1);
    } else {
      assert links[..n] == links;
    }
  }

  /** The failing link is the first link of the batch that does not match. */
  lemma {:induction false} ExtractAllFirstFailure(uw: char -> bool, links: seq<string>)
    requires ExtractAll(uw, links).NoMatch?
    ensures exists i :: 0 <= i < |links| && links[i] == ExtractAll(uw, links).link
                && Extract(uw, links[i]).None? && forall j :: 0 <= j < i ==> Extract(uw, links[j]).Some?
    decreases |links|
  {
    var prefix := links[..|links| - 1];
    assert forall j :: 0 <= j < |prefix| ==> prefix[j] == links[j];
    if ExtractAll(uw, prefix).NoMatch? {
      ExtractAllFirstFailure(uw, prefix);
      var i :| 0 <= i < |prefix| && prefix[i] == ExtractAll(uw, prefix).link
        && Extract(uw, prefix[i]).None? && forall j :: 0 <= j < i ==> Extract(uw, prefix[j]).Some?;
      assert links[i] == ExtractAll(uw, links).link;
    } else {
      ExtractAllFails(uw, prefix);
      assert forall j :: 0 <= j < |prefix| ==> Extract(uw, links[j]).Some?;
    }
  }

  /** The loop of `post_visited_links` that adds the domain of every link
      to a set; it stops at the first link the pattern does not match. */
  method CollectDomains(uw: char -> bool, links: seq<string>) returns (r: Extraction)
    ensures r == ExtractAll(uw, links)
  {
    var domains: set<string> := {};
    var i := 0;
    while i < |links|
      invariant 0 <= i <= |links|
      invariant ExtractAll(uw, links[..i]) == Domains(domains)
    {
      var next := links[..i + 1];
      assert next[..i] == links[..i] && next[i] == links[i];
      var d := Extract(uw, links[i]);
      if d.None? {
        assert ExtractAll(uw, next) == NoMatch(links[i]);
        ExtractAllStops(uw, links, i + 1);
        return NoMatch(links[i]);
      }
      assert ExtractAll(uw, next) == Domains(domains + {d.value});
      domains := domains + {d.value};
      i := i + 1;
    }
    assert links[..i] == links;
    r := Domains(domains);
  }

  /** The body of `post_visited_links`. */
  method PostVisitedLinks(store: MockingRedis, uw: char -> bool, links: seq<string>, now: int)
    returns (res: PostResult)
    requires store.Valid()
    modifies store
    ensures store.Valid()
    ensures res.Unmatched? <==> ExtractAll(uw, links).NoMatch?
    ensures res.Unmatched? ==>
      && res.link == ExtractAll(uw, links).link
      && store.saveRedis == old(store.saveRedis) && store.order == old(store.order)
    ensures res.Recorded? ==>
      && now in store.saveRedis
      && store.saveRedis == old(store.saveRedis)[now := store.saveRedis[now]]
      && Serializes(store.saveRedis[now], ExtractAll(uw, links).found)
      && store.order == old(store.order) + (if now in old(store.saveRedis) then [] else [now])
  {
    var extraction := CollectDomains(uw, links);
    if extraction.NoMatch? {
      return Unmatched(extraction.link);
    }
    var domains := extraction.found;
    forall x | x in domains ensures ',' !in x {
      ExtractedDomainsHaveNoComma(uw, links, x);
    }
    var xs := Ordering(domains);
    OrderingSerializes(xs, domains);
    var value := Join(xs);
    store.Mset([(now, value)]);
    UpdatedFrame(old(store.saveRedis), [(now, value)]);
    UpdatedOverwrites(old(store.saveRedis), [(now, value)]);
    assert store.saveRedis == old(store.saveRedis)[now := value];
    res := Recorded;
  }

  /** A record is visible to every query whose range covers its second. */
  lemma RecordIsVisible(m: map<int, string>, now: int, v: string, from: int, to: int)
    requires from != 0 && to != 0 && to <= now < from
    ensures Query(m[now := v], from, to).Found?
    ensures SplitSet(v) <= Query(m[now := v], from, to).domains
  {
    var m' := m[now := v];
    forall d | d in SplitSet(v) ensures d in Query(m', from, to).domains {
      QueryMembership(m', from, to, d);
      assert now in m' && d in SplitSet(m'[now]);
    }
  }

  /** Reading back a record: a query whose range covers the second of a
      record and no other stored key returns exactly the recorded domains. */
  lemma RecordThenQuery(m: map<int, string>, now: int, v: string, ds: set<string>, from: int, to: int)
    requires Serializes(v, ds) && ds != {}
    requires from != 0 && to != 0 && to <= now < from
    requires forall k :: to <= k < from && k != now ==> k !in m
    ensures Query(m[now := v], from, to) == Found(ds)
  {
    var m' := m[now := v];
    forall d ensures d in Query(m', from, to).domains <==> d in ds {
      QueryMembership(m', from, to, d);
      if d in ds {
        assert now in m' && d in SplitSet(m'[now]);
      }
      if d in Query(m', from, to).domains {
        var k :| to <= k < from && k in m' && d in SplitSet(m'[k]);
        assert k == now;
      }
    }
  }

  /** Two records of the same domains: the union holds each domain once. */
  lemma SameDomainsTwice(m: map<int, string>, t1: int, v1: string, t2: int, v2: string,
                         ds: set<string>, from: int, to: int)
    requires Serializes(v1, ds) && Serializes(v2, ds) && ds != {}
    requires from != 0 && to != 0 && to <= t1 < from && to <= t2 < from
    requires forall k :: to <= k < from && k != t1 && k != t2 ==> k !in m
    ensures Query(m[t1 := v1][t2 := v2], from, to) == Found(ds)
  {
    var m' := m[t1 := v1][t2 := v2];
    forall d ensures d in Query(m', from, to).domains <==> d in ds {
      QueryMembership(m', from, to, d);
      if d in ds {
        assert t2 in m' && d in SplitSet(m'[t2]);
      }
      if d in Query(m', from, to).domains {
        var k :| to <= k < from && k in m' && d in SplitSet(m'[k]);
        assert k == t1 || k == t2;
      }
    }
  }

  /** An empty batch records `""`, whose split is `[""]`: a later query
      reports the empty string as a visited domain. */
  lemma EmptyBatchReadsAsEmptyDomain(uw: char -> bool, now: int, v: string)
    requires now != 0 && now != -1
    requires Serializes(v, ExtractAll(uw, []).found)
    ensures Query(map[now := v], now + 1, now) == Found({""})
  {
    assert v == "";
    assert Split("") == [""];
    assert RangeUnion(map[now := v], now, now + 1) == SplitSet("");
  }

  /** The batch of the source's POST test extracts to both of its domains. */
  lemma ExtractTestBatch(uw: char -> bool)
    ensures ExtractAll(uw, ["ya.ru", "funbox.ru"]) == Domains({"ya.ru", "funbox.ru"})
  {
    var links := ["ya.ru", "funbox.ru"];
    assert "ya.ru"[..4][0] == 'y';
    ExtractWholeRun(uw, "ya.ru");
    ExtractExampleBare(uw);
    assert links[..1] == ["ya.ru"];
    assert links[..1][..0] == [];
    assert ExtractAll(uw, links[..1]) == Domains({"ya.ru"});
  }

  /** The source's POST-then-GET test: the record of the batch
      `["ya.ru", "funbox.ru"]` (whose domains `ExtractTestBatch` gives) stored
      at `now`, queried with `from_ = now + 1` and `to_ = now - 10`
      on a store holding only that record, gives both domains; the stored
      value splits into two pieces. */
  lemma PostThenGetExample(now: int, v: string)
    requires now != -1 && now != 10
    requires Serializes(v, {"ya.ru", "funbox.ru"})
    ensures |Split(v)| == 2
    ensures Query(map[now := v], now + 1, now - 10) == Found({"ya.ru", "funbox.ru"})
  {
    var ds: set<string> := {"ya.ru", "funbox.ru"};
    assert |ds| == 2;
    RecordThenQuery(map[], now, v, ds, now + 1, now - 10);
    assert map[][now := v] == map[now := v];
  }

  /** The source's POST-then-GET test run through the two endpoints on a
      fresh store: the POST of `["ya.ru", "funbox.ru"]` at `now` succeeds,
      leaves exactly one key, `now`, which is also the first key, and the GET
      with `from_ = now + 1` and `to_ = now - 10` answers both domains. */
  method PostThenGetScenario(uw: char -> bool, now: int)
    returns (posted: PostResult, first: Option<int>, count: nat, answer: QueryResult)
    requires now != -1 && now != 10
    ensures posted == Recorded
    ensures first == Some(now) && count == 1
    ensures answer == Found({"ya.ru", "funbox.ru"})
  {
    var store := new MockingRedis();
    ExtractTestBatch(uw);
    posted := PostVisitedLinks(store, uw, ["ya.ru", "funbox.ru"], now);
    assert store.saveRedis == map[now := store.saveRedis[now]];
    first := store.GetFirstKey();
    count := store.Len();
    PostThenGetExample(now, store.saveRedis[now]);
    answer := GetVisitedLinks(store, now + 1, now - 10);
  }
}
