/** The compound search queries of lib/couchbase/search_options.rb: builders that keep their children without
    duplicates, and the bodies they serialise to. Children are of any type with an identity. */
module SearchQuery {
  import opened Wrappers
  import opened Unique

  /** Builder arguments: queries, possibly in nested arrays. */
  datatype Arg<Q> = One(query: Q) | Many(args: seq<Arg<Q>>)

  /** `queries.flatten`. */
  function Flatten<Q>(args: seq<Arg<Q>>): seq<Q> {
    if args == [] then []
    else
      match args[0]
      case One(q) => [q] + Flatten(args[1..])
      case Many(inner) => Flatten(inner) + Flatten(args[1..])
  }

  /** `flatten`, law by law: a query stands for itself, a nested array for what is in it, a list for its parts in order. */
  lemma {:induction false} FlattenLaws<Q>(q: Q, inner: seq<Arg<Q>>, a: seq<Arg<Q>>, b: seq<Arg<Q>>)
    ensures Flatten<Q>([]) == []
    ensures Flatten([One(q)]) == [q]
    ensures Flatten([Many(inner)]) == Flatten(inner)
    ensures Flatten(a + b) == Flatten(a) + Flatten(b)
    decreases |a|
  {
    FlattenSingle([One(q)]);
    FlattenSingle([Many(inner)]);
    if a == [] {
      assert a + b == b;
    } else {
      assert (a + b)[1..] == a[1..] + b;
      FlattenLaws(q, inner, a[1..], b);
    }
  }

  lemma FlattenSingle<Q>(args: seq<Arg<Q>>)
    requires |args| == 1
    ensures Flatten(args) == if args[0].One? then [args[0].query] else Flatten(args[0].args)
  {
    assert args[1..] == [];
  }

  datatype Error = NoSubQueries | FewerThanMinimum | NothingToSend | NoBounds

  datatype Conjuncts<Q> = Conjuncts(conjuncts: seq<Q>, boost: Option<real>)
  datatype Disjuncts<Q> = Disjuncts(disjuncts: seq<Q>, min: Option<int>, boost: Option<real>)

  /** `ConjunctionQuery#to_json`. */
  function ConjunctionJson<Q(==)>(queries: seq<Q>, boost: Option<real>): Result<Conjuncts<Q>, Error> {
    if queries == [] then Err(NoSubQueries) else Ok(Conjuncts(Uniq(queries), boost))
  }

  /** `DisjunctionQuery#to_json`; the minimum is compared with the number of children before `uniq`. */
  function DisjunctionJson<Q(==)>(queries: seq<Q>, min: Option<int>, boost: Option<real>): Result<Disjuncts<Q>, Error> {
    if queries == [] then Err(NoSubQueries)
    else if min.Some? && |queries| < min.value then Err(FewerThanMinimum)
    else Ok(Disjuncts(Uniq(queries), min, boost))
  }

  class ConjunctionQuery<Q(==)> {
    var queries: seq<Q>
    var boost: Option<real>

    constructor (args: seq<Arg<Q>>)
      ensures queries == Flatten(args) && boost == None
    {
      queries, boost := Flatten(args), None;
    }

    method AndAlso(args: seq<Arg<Q>>)
      modifies this
      ensures queries == Union(old(queries), Flatten(args)) && boost == old(boost)
    {
      queries := Union(queries, Flatten(args));
    }

    function ToJson(): Result<Conjuncts<Q>, Error>
      reads this
    {
      ConjunctionJson(queries, boost)
    }
  }

  class DisjunctionQuery<Q(==)> {
    var queries: seq<Q>
    var min: Option<int>
    var boost: Option<real>

    constructor (args: seq<Arg<Q>>)
      ensures queries == Flatten(args) && min == None && boost == None
    {
      queries, min, boost := Flatten(args), None, None;
    }

    method OrElse(args: seq<Arg<Q>>)
      modifies this
      ensures queries == Union(old(queries), Flatten(args)) && min == old(min) && boost == old(boost)
    {
      queries := Union(queries, Flatten(args));
    }

    function ToJson(): Result<Disjuncts<Q>, Error>
      reads this
    {
      DisjunctionJson(queries, min, boost)
    }
  }

  // ----- BooleanQuery

  /** The children of a boolean query and the minimum of its "should" part. */
  datatype Clauses<Q> = Clauses(must: seq<Q>, mustNot: seq<Q>, should: seq<Q>, min: Option<int>)

  function NewClauses<Q>(): Clauses<Q> {
    Clauses([], [], [], None)
  }

  datatype Call<Q> =
    | Must(args: seq<Arg<Q>>) | MustNot(args: seq<Arg<Q>>) | Should(args: seq<Arg<Q>>) | ShouldMin(min: Option<int>)

  function Apply<Q(==)>(c: Clauses<Q>, call: Call<Q>): Clauses<Q> {
    match call
    case Must(args) => c.(must := Union(c.must, Flatten(args)))
    case MustNot(args) => c.(mustNot := Union(c.mustNot, Flatten(args)))
    case Should(args) => c.(should := Union(c.should, Flatten(args)))
    case ShouldMin(min) => c.(min := min)
  }

  datatype BooleanJson<Q> = BooleanJson(
    must: Option<Conjuncts<Q>>, mustNot: Option<Disjuncts<Q>>, should: Option<Disjuncts<Q>>, boost: Option<real>)

  /** `BooleanQuery#to_json`: empty parts are left out, the others serialised. Of those only "should" can fail,
      because only it has a minimum. */
  function BooleanToJson<Q(==)>(c: Clauses<Q>, boost: Option<real>): Result<BooleanJson<Q>, Error> {
    if c.must == [] && c.mustNot == [] && c.should == [] then Err(NothingToSend)
    else
      var must, mustNot, should :=
        ConjunctionJson(c.must, None), DisjunctionJson(c.mustNot, None, None), DisjunctionJson(c.should, c.min, None);
      if c.should != [] && should.Err? then Err(should.error)
      else
        Ok(BooleanJson(
             if must.Ok? then Some(must.value) else None,
             if mustNot.Ok? then Some(mustNot.value) else None,
             if c.should != [] then Some(should.value) else None,
             boost))
  }

  class BooleanQuery<Q(==)> {
    const must: ConjunctionQuery<Q>
    const mustNot: DisjunctionQuery<Q>
    const should: DisjunctionQuery<Q>
    var boost: Option<real>

    /** The parts are three objects of the query's own, without a boost, and "must not" has no minimum. */
    ghost predicate Valid()
      reads this, must, mustNot, should
    {
      && mustNot != should
      && must.boost == None && mustNot.boost == None && should.boost == None
      && mustNot.min == None
    }

    function State(): Clauses<Q>
      reads this, must, mustNot, should
    {
      Clauses(must.queries, mustNot.queries, should.queries, should.min)
    }

    constructor ()
      ensures Valid() && fresh(must) && fresh(mustNot) && fresh(should)
      ensures State() == NewClauses() && boost == None
    {
      must := new ConjunctionQuery<Q>([]);
      mustNot := new DisjunctionQuery<Q>([]);
      should := new DisjunctionQuery<Q>([]);
      boost := None;
    }

    method SetShouldMin(min: Option<int>)
      requires Valid()
      modifies should
      ensures Valid() && State() == Apply(old(State()), ShouldMin(min))
    {
      should.min := min;
    }

    method AddMust(args: seq<Arg<Q>>)
      requires Valid()
      modifies must
      ensures Valid() && State() == Apply(old(State()), Must(args))
    {
      must.AndAlso(args);
    }

    method AddMustNot(args: seq<Arg<Q>>)
      requires Valid()
      modifies mustNot
      ensures Valid() && State() == Apply(old(State()), MustNot(args))
    {
      mustNot.OrElse(args);
    }

    method AddShould(args: seq<Arg<Q>>)
      requires Valid()
      modifies should
      ensures Valid() && State() == Apply(old(State()), Should(args))
    {
      should.OrElse(args);
    }

    /** `to_json`, part by part. */
    method ToJson() returns (r: Result<BooleanJson<Q>, Error>)
      requires Valid()
      ensures r == BooleanToJson(State(), boost)
    {
      if must.queries == [] && mustNot.queries == [] && should.queries == [] {
        return Err(NothingToSend);
      }
      var m, n, s := None, None, None;
      if must.queries != [] {
        m := Some(must.ToJson().value);
      }
      if mustNot.queries != [] {
        n := Some(mustNot.ToJson().value);
      }
      if should.queries != [] {
        var json := should.ToJson();
        if json.Err? { return Err(json.error); }
        s := Some(json.value);
      }
      r := Ok(BooleanJson(m, n, s, boost));
    }
  }

  // ----- runs of builder calls

  function Run<Q(==)>(c: Clauses<Q>, calls: seq<Call<Q>>): Clauses<Q>
    decreases calls
  {
    if calls == [] then c else Run(Apply(c, calls[0]), calls[1..])
  }

  /** All arguments given to one kind of call, in order. */
  function MustArgs<Q>(calls: seq<Call<Q>>): seq<Q> {
    if calls == [] then [] else (if calls[0].Must? then Flatten(calls[0].args) else []) + MustArgs(calls[1..])
  }

  function MustNotArgs<Q>(calls: seq<Call<Q>>): seq<Q> {
    if calls == [] then [] else (if calls[0].MustNot? then Flatten(calls[0].args) else []) + MustNotArgs(calls[1..])
  }

  function ShouldArgs<Q>(calls: seq<Call<Q>>): seq<Q> {
    if calls == [] then [] else (if calls[0].Should? then Flatten(calls[0].args) else []) + ShouldArgs(calls[1..])
  }

  /** The minimum set by the last call that sets one. */
  function LastMin<Q>(calls: seq<Call<Q>>, otherwise: Option<int>): Option<int> {
    if calls == [] then otherwise
    else LastMin(calls[1..], if calls[0].ShouldMin? then calls[0].min else otherwise)
  }

  ghost predicate Deduplicated<Q>(c: Clauses<Q>) {
    NoDuplicates(c.must) && NoDuplicates(c.mustNot) && NoDuplicates(c.should)
  }

  lemma Grow<Q>(list: seq<Q>, args: seq<Q>, more: seq<Q>)
    requires NoDuplicates(list)
    ensures Union(Union(list, args), more) == Union(list, args + more)
    ensures Union(list, [] + more) == Union(list, more)
    ensures Union(list, []) == list
  {
    hide Uniq, NoDuplicates, SameElements;
    UniqAbsorbs(list + args, more);
    assert list + args + more == list + (args + more);
    assert [] + more == more;
    assert list + [] == list;
    UniqIdentity(list);
  }

  lemma {:induction false} RunFrom<Q>(c: Clauses<Q>, calls: seq<Call<Q>>)
    requires Deduplicated(c)
    ensures Deduplicated(Run(c, calls))
    ensures Run(c, calls) ==
            Clauses(Union(c.must, MustArgs(calls)), Union(c.mustNot, MustNotArgs(calls)),
                    Union(c.should, ShouldArgs(calls)), LastMin(calls, c.min))
    decreases |calls|
  {
    hide Union, NoDuplicates, SameElements, Flatten;
    if calls == [] {
      Grow(c.must, [], []);
      Grow(c.mustNot, [], []);
      Grow(c.should, [], []);
    } else {
      var rest := calls[1..];
      RunFrom(Apply(c, calls[0]), rest);
      var args := if calls[0].ShouldMin? then [] else Flatten(calls[0].args);
      Grow(c.must, args, MustArgs(rest));
      Grow(c.mustNot, args, MustNotArgs(rest));
      Grow(c.should, args, ShouldArgs(rest));
    }
  }

  /** After any run of builder calls on a new query, each part holds the arguments given for it, without duplicates and
      in order of first appearance, and the minimum is the last one set. */
  lemma BuilderRuns<Q>(calls: seq<Call<Q>>)
    ensures Run(NewClauses(), calls) ==
            Clauses(Uniq(MustArgs(calls)), Uniq(MustNotArgs(calls)), Uniq(ShouldArgs(calls)), LastMin(calls, None))
  {
    hide Uniq;
    RunFrom(NewClauses<Q>(), calls);
    assert [] + MustArgs(calls) == MustArgs(calls);
    assert [] + MustNotArgs(calls) == MustNotArgs(calls);
    assert [] + ShouldArgs(calls) == ShouldArgs(calls);
  }

  /** Serialising parts without duplicates: exactly the non-empty parts are emitted, as they stand. */
  lemma Serialises<Q>(c: Clauses<Q>, boost: Option<real>)
    requires Deduplicated(c)
    ensures var r := BooleanToJson(c, boost);
            && (r == Err(NothingToSend) <==> c.must == [] && c.mustNot == [] && c.should == [])
            && (r == Err(FewerThanMinimum) <==> c.should != [] && c.min.Some? && c.min.value > |c.should|)
            && (r.Err? ==> r.error.NothingToSend? || r.error.FewerThanMinimum?)
            && (r.Ok? ==>
                  r.value == BooleanJson(
                    if c.must == [] then None else Some(Conjuncts(c.must, None)),
                    if c.mustNot == [] then None else Some(Disjuncts(c.mustNot, None, None)),
                    if c.should == [] then None else Some(Disjuncts(c.should, c.min, None)),
                    boost))
  {
    hide Uniq, NoDuplicates, SameElements;
    UniqIdentity(c.must);
    UniqIdentity(c.mustNot);
    UniqIdentity(c.should);
  }

  /** Serialising after any run of builder calls: it fails exactly when no query was ever given, or "should" queries were
      given but fewer distinct ones than the minimum; otherwise at least one part is emitted, exactly the ones queries were
      given for, none empty, with at least `min` distinct queries in "should". */
  lemma BuilderSerialises<Q>(calls: seq<Call<Q>>, boost: Option<real>)
    ensures var r := BooleanToJson(Run(NewClauses(), calls), boost);
            var should, min := Uniq(ShouldArgs(calls)), LastMin(calls, None);
            && (r == Err(NothingToSend) <==> MustArgs(calls) == [] && MustNotArgs(calls) == [] && ShouldArgs(calls) == [])
            && (r == Err(FewerThanMinimum) <==> should != [] && min.Some? && min.value > |should|)
            && (r.Err? ==> r.error.NothingToSend? || r.error.FewerThanMinimum?)
            && (r.Ok? ==>
                  && r.value.boost == boost
                  && (r.value.must.Some? || r.value.mustNot.Some? || r.value.should.Some?)
                  && (if MustArgs(calls) == [] then r.value.must == None
                      else r.value.must == Some(Conjuncts(Uniq(MustArgs(calls)), None)))
                  && (if MustNotArgs(calls) == [] then r.value.mustNot == None
                      else r.value.mustNot == Some(Disjuncts(Uniq(MustNotArgs(calls)), None, None)))
                  && (if ShouldArgs(calls) == [] then r.value.should == None
                      else r.value.should == Some(Disjuncts(should, min, None)) && |should| >= Threshold(min)))
  {
    var c := Run(NewClauses<Q>(), calls);
    RunFrom(NewClauses<Q>(), calls);
    hide BooleanToJson, Uniq, Run, Union, NoDuplicates, SameElements;
    BuilderRuns(calls);
    Serialises(c, boost);
    UniqEmpty(MustArgs(calls));
    UniqEmpty(MustNotArgs(calls));
    UniqEmpty(ShouldArgs(calls));
  }

  lemma UniqEmpty<T>(s: seq<T>)
    ensures Uniq(s) == [] <==> s == []
  {
    if s != [] { assert s[0] in Uniq(s); }
  }

  // ----- does `uniq` preserve what a query matches?

  /** How many children a document satisfies, when `hits` are the queries it satisfies. */
  function Count<Q(==)>(hits: set<Q>, queries: seq<Q>): nat {
    if queries == [] then 0 else (if queries[0] in hits then 1 else 0) + Count(hits, queries[1..])
  }

  /** A conjunction is satisfied by satisfying all children. */
  ghost predicate MatchesAll<Q>(hits: set<Q>, queries: seq<Q>) {
    forall i :: 0 <= i < |queries| ==> queries[i] in hits
  }

  function Threshold(min: Option<int>): int {
    if min.Some? then min.value else 1
  }

  /** A disjunction is satisfied by satisfying a minimum number of children, one when none is set. */
  predicate MatchesSome<Q(==)>(hits: set<Q>, min: Option<int>, queries: seq<Q>) {
    Count(hits, queries) >= Threshold(min)
  }

  /** A conjunction serialises unless it is empty, to its queries without duplicates and its boost, and that never changes
      its meaning. */
  lemma ConjunctionMeaning<Q>(hits: set<Q>, queries: seq<Q>, boost: Option<real>)
    ensures var r := ConjunctionJson(queries, boost);
            && r.Ok? == (|queries| > 0)
            && (r.Err? ==> r.error == NoSubQueries)
            && (r.Ok? ==>
                  && IsUniq(r.value.conjuncts, queries) && r.value.boost == boost
                  && (MatchesAll(hits, r.value.conjuncts) <==> MatchesAll(hits, queries)))
  {
    hide Uniq, IsUniq, MatchesAll, NoDuplicates, SameElements;
    UniqIs(queries);
    UniqMatchesAll(hits, queries);
  }

  lemma UniqMatchesAll<Q>(hits: set<Q>, queries: seq<Q>)
    ensures MatchesAll(hits, Uniq(queries)) <==> MatchesAll(hits, queries)
  {
  }

  /** A disjunction serialises unless it is empty or has fewer queries, repeated ones counted, than its minimum. */
  lemma DisjunctionSerialises<Q>(queries: seq<Q>, min: Option<int>, boost: Option<real>)
    ensures var r := DisjunctionJson(queries, min, boost);
            && (r == Err(NoSubQueries) <==> |queries| == 0)
            && (r == Err(FewerThanMinimum) <==> |queries| > 0 && min.Some? && min.value > |queries|)
            && (r.Err? ==> r.error.NoSubQueries? || r.error.FewerThanMinimum?)
            && (r.Ok? ==> IsUniq(r.value.disjuncts, queries) && r.value.min == min && r.value.boost == boost)
  {
    UniqIs(queries);
  }

  /** The same elements, none repeated, in order of first appearance. */
  ghost predicate IsUniq<Q>(u: seq<Q>, s: seq<Q>) {
    && (forall i :: 0 <= i < |u| ==> u[i] in s)
    && (forall i :: 0 <= i < |s| ==> s[i] in u)
    && (forall i, j :: 0 <= i < j < |u| ==> u[i] != u[j])
    && (forall i, j :: 0 <= i < j < |u| ==> u[i] in s && u[j] in s && FirstIndex(s, u[i]) < FirstIndex(s, u[j]))
  }

  lemma UniqIs<Q>(s: seq<Q>)
    ensures IsUniq(Uniq(s), s)
  {
    hide FirstIndex;
    var u := Uniq(s);
    forall i, j | 0 <= i < j < |u|
      ensures u[i] in s && u[j] in s && FirstIndex(s, u[i]) < FirstIndex(s, u[j])
    {
      UniqOrder(s, i, j);
    }
  }

  lemma {:induction false} CountConcat<Q>(hits: set<Q>, s: seq<Q>, t: seq<Q>)
    ensures Count(hits, s + t) == Count(hits, s) + Count(hits, t)
  {
    if s == [] {
      assert s + t == t;
    } else {
      assert (s + t)[1..] == s[1..] + t;
      CountConcat(hits, s[1..], t);
    }
  }

  lemma CountAppend<Q>(hits: set<Q>, s: seq<Q>, x: Q)
    ensures Count(hits, s + [x]) == Count(hits, s) + if x in hits then 1 else 0
  {
    CountConcat(hits, s, [x]);
    assert Count(hits, [x]) == if x in hits then 1 else 0;
  }

  function Elements<Q(==)>(s: seq<Q>): set<Q> {
    set x | x in s
  }

  /** Without repetition, the count is the number of satisfied queries. */
  lemma {:induction false} CountUniq<Q>(hits: set<Q>, s: seq<Q>)
    ensures Count(hits, Uniq(s)) == |hits * Elements(s)|
  {
    hide Uniq, NoDuplicates, SameElements;
    if s != [] {
      var t, x := s[..|s| - 1], s[|s| - 1];
      assert s == t + [x];
      CountUniq(hits, t);
      UniqAppend(t, x);
      if x in t {
        assert Elements(s) == Elements(t);
      } else {
        CountAppend(hits, Uniq(t), x);
        assert Elements(s) == Elements(t) + {x};
        if x in hits {
          assert hits * Elements(s) == hits * Elements(t) + {x};
        } else {
          assert hits * Elements(s) == hits * Elements(t);
        }
      }
    } else {
      UniqEmpty(s);
      assert hits * Elements(s) == {};
    }
  }

  /** Repetition can only raise the count, and raises it by at least one for a repeated satisfied query. */
  lemma {:induction false} CountAtLeastUniq<Q>(hits: set<Q>, s: seq<Q>)
    ensures Count(hits, s) >= Count(hits, Uniq(s))
    ensures Count(hits, s) > 0 ==> Count(hits, Uniq(s)) > 0
  {
    hide Uniq, NoDuplicates, SameElements;
    if s == [] {
      UniqEmpty(s);
    } else {
      var t, x := s[..|s| - 1], s[|s| - 1];
      assert s == t + [x];
      CountAtLeastUniq(hits, t);
      UniqAppend(t, x);
      CountAppend(hits, t, x);
      if x in t {
        CountUniq(hits, t);
        if x in hits { assert x in hits * Elements(t); }
      } else {
        CountAppend(hits, Uniq(t), x);
      }
    }
  }

  lemma RepeatedCountsTwice<Q>(hits: set<Q>, s: seq<Q>, i: nat, j: nat)
    requires i < j < |s| && s[i] == s[j] && s[i] in hits
    ensures Count(hits, s) >= Count(hits, Uniq(s)) + 1
  {
    var rest := s[..j] + s[j + 1..];
    assert s == s[..j] + ([s[j]] + s[j + 1..]);
    CountConcat(hits, s[..j], [s[j]] + s[j + 1..]);
    CountConcat(hits, [s[j]], s[j + 1..]);
    CountConcat(hits, s[..j], s[j + 1..]);
    assert Count(hits, [s[j]]) == 1;
    CountAtLeastUniq(hits, rest);
    CountUniq(hits, rest);
    CountUniq(hits, s);
    assert Elements(rest) == Elements(s) by {
      assert rest[i] == s[j];
      forall x | x in s
        ensures x in rest
      {
        var k :| 0 <= k < |s| && s[k] == x;
        assert k < j ==> rest[k] == x;
        assert k > j ==> rest[k - 1] == x;
      }
    }
  }

  /** A set of any size between one element and all, with a given element in it. */
  lemma {:induction false} SubsetOfSize<Q>(all: set<Q>, x: Q, k: nat) returns (some: set<Q>)
    requires x in all && 1 <= k <= |all|
    ensures some <= all && x in some && |some| == k
    decreases |all|
  {
    if k == |all| {
      some := all;
    } else {
      assert |all - {x}| == |all| - 1 > 0;
      var y :| y in all - {x};
      some := SubsetOfSize(all - {y}, x, k);
    }
  }

  /** When the minimum is at least two and a child is repeated, some document is matched before `uniq` and not after. */
  lemma Distinguishes<Q>(queries: seq<Q>, min: int, i: nat, j: nat) returns (hits: set<Q>)
    requires 2 <= min <= |queries| && i < j < |queries| && queries[i] == queries[j]
    ensures Count(hits, queries) >= min > Count(hits, Uniq(queries))
  {
    var all := Elements(queries);
    var x := queries[i];
    assert x in all;
    if min - 1 < |all| {
      hits := SubsetOfSize(all, x, min - 1);
      CountUniq(hits, queries);
      assert hits * all == hits;
      RepeatedCountsTwice(hits, queries, i, j);
    } else {
      hits := all;
      CountUniq(hits, queries);
      assert hits * all == all;
      CountEverything(all, queries);
    }
  }

  lemma {:induction false} CountEverything<Q>(all: set<Q>, s: seq<Q>)
    requires forall i :: 0 <= i < |s| ==> s[i] in all
    ensures Count(all, s) == |s|
  {
    if s != [] { CountEverything(all, s[1..]); }
  }

  /** A disjunction that serialises means the same before and after `uniq`, for every document, exactly when its minimum
      is at most one or it has no repeated child. */
  lemma DisjunctionMeaningIff<Q(!new)>(queries: seq<Q>, min: Option<int>, boost: Option<real>)
    requires DisjunctionJson(queries, min, boost).Ok?
    ensures SameMatches(queries, min, DisjunctionJson(queries, min, boost).value)
            <==> Threshold(min) <= 1 || NoDuplicates(queries)
  {
    hide Uniq, SameElements, NoDuplicates, Count;
    var body := DisjunctionJson(queries, min, boost).value;
    assert body == Disjuncts(Uniq(queries), min, boost);
    if Threshold(min) <= 1 || NoDuplicates(queries) {
      forall hits: set<Q>
        ensures MatchesSome(hits, body.min, body.disjuncts) <==> MatchesSome(hits, min, queries)
      {
        if NoDuplicates(queries) { UniqIdentity(queries); }
        CountAtLeastUniq(hits, queries);
      }
    } else {
      var i, j := Repeated(queries);
      var hits := Distinguishes(queries, min.value, i, j);
      assert MatchesSome(hits, min, queries) && !MatchesSome(hits, body.min, body.disjuncts);
    }
  }

  /** Every document matches what is sent exactly when it matches the disjunction as it was given. */
  ghost predicate SameMatches<Q(!new)>(queries: seq<Q>, min: Option<int>, body: Disjuncts<Q>) {
    forall hits: set<Q> :: MatchesSome(hits, body.min, body.disjuncts) <==> MatchesSome(hits, min, queries)
  }

  lemma Repeated<Q>(queries: seq<Q>) returns (i: nat, j: nat)
    requires !NoDuplicates(queries)
    ensures i < j < |queries| && queries[i] == queries[j]
  {
    i, j :| 0 <= i < j < |queries| && queries[i] == queries[j];
  }

  /** The smallest example: one query given twice, with a minimum of two, serialises to a body that
      a document satisfying that query no longer matches. */
  lemma DuplicateDisjunctionFails<Q>(q: Q)
    ensures DisjunctionJson([q, q], Some(2), None) == Ok(Disjuncts([q], Some(2), None))
    ensures MatchesSome({q}, Some(2), [q, q])
    ensures !MatchesSome({q}, Some(2), [q])
  {
    assert [q, q][..1] == [q] && [q][..0] == [];
    assert Uniq([q]) == [q];
    assert [q, q][1..] == [q] && [q][1..] == [];
    assert Count({q}, [q]) == 1;
  }

  /** A document matches a serialised boolean query when it satisfies all of "must", does not match "must not", and
      satisfies enough of "should"; a part that is absent asks for nothing. */
  ghost predicate Matches<Q>(hits: set<Q>, body: BooleanJson<Q>) {
    && (body.must.Some? ==> MatchesAll(hits, body.must.value.conjuncts))
    && (body.mustNot.Some? ==> !MatchesSome(hits, body.mustNot.value.min, body.mustNot.value.disjuncts))
    && (body.should.Some? ==> MatchesSome(hits, body.should.value.min, body.should.value.disjuncts))
  }

  /** From the builder calls to the documents: whenever the query serialises, a document matches what is sent exactly when
      it satisfies every query ever given to `must`, none ever given to `must_not`, and, if any was given to `should`, at
      least the last minimum of distinct ones. */
  lemma BuilderMeaning<Q>(calls: seq<Call<Q>>, boost: Option<real>, hits: set<Q>)
    requires BooleanToJson(Run(NewClauses(), calls), boost).Ok?
    ensures var body := BooleanToJson(Run(NewClauses(), calls), boost).value;
            Matches(hits, body) <==>
              && MatchesAll(hits, MustArgs(calls))
              && hits * Elements(MustNotArgs(calls)) == {}
              && (ShouldArgs(calls) != [] ==> |hits * Elements(ShouldArgs(calls))| >= Threshold(LastMin(calls, None)))
  {
    hide BooleanToJson, Run, Uniq, NoDuplicates, SameElements, Count;
    BuilderSerialises(calls, boost);
    UniqMatchesAll(hits, MustArgs(calls));
    CountUniq(hits, MustNotArgs(calls));
    CountUniq(hits, ShouldArgs(calls));
    if MustNotArgs(calls) == [] {
      assert hits * Elements(MustNotArgs(calls)) == {};
    }
  }
}
