/** Search queries as trees: serialising a compound query serialises its children too, so a query deep inside can make the
    outermost call raise, and removing repeated children happens at every level. */
module QueryTrees {
  import opened Wrappers
  import opened Unique
  import opened SearchQuery

  /** A query object; `id` is its identity, so equal values are the same object. A leaf stands for any query without
      children; `unbounded` says that it is a range query with neither bound set. The parts of a boolean query are objects of
      their own. */
  datatype Tree =
    | Leaf(id: nat, unbounded: bool)
    | Conjunction(id: nat, queries: seq<Tree>)
    | Disjunction(id: nat, queries: seq<Tree>, min: Option<int>)
    | Boolean(id: nat, must: Tree, mustNot: Tree, should: Tree)
  {
    /** `empty?` */
    predicate IsEmpty() {
      (Conjunction? || Disjunction?) && queries == []
    }
  }

  /** The JSON that is sent. */
  datatype Body =
    | Term(id: nat)
    | All(conjuncts: seq<Body>)
    | AtLeast(disjuncts: seq<Body>, min: Option<int>)
    | Parts(must: Option<Body>, mustNot: Option<Body>, should: Option<Body>)

  // ----- serialising

  /** What a query checks itself before it turns to its children. */
  function OwnCheck(q: Tree): Option<Error> {
    match q
    case Leaf(_, unbounded) => if unbounded then Some(NoBounds) else None
    case Conjunction(_, queries) => if queries == [] then Some(NoSubQueries) else None
    case Disjunction(_, queries, min) =>
      if queries == [] then Some(NoSubQueries)
      else if min.Some? && |queries| < min.value then Some(FewerThanMinimum)
      else None
    case Boolean(_, must, mustNot, should) =>
      if must.IsEmpty() && mustNot.IsEmpty() && should.IsEmpty() then Some(NothingToSend) else None
  }

  /** All bodies in order, or the first exception. */
  function Gather(results: seq<Result<Body, Error>>): Result<seq<Body>, Error> {
    if results == [] then Ok([])
    else if results[0].Err? then Err(results[0].error)
    else
      var rest := Gather(results[1..]);
      if rest.Err? then rest else Ok([results[0].value] + rest.value)
  }

  lemma {:induction false} GatherIff(results: seq<Result<Body, Error>>)
    ensures Gather(results).Ok? <==> forall i :: 0 <= i < |results| ==> results[i].Ok?
    ensures Gather(results).Ok? ==>
              && |Gather(results).value| == |results|
              && forall i :: 0 <= i < |results| ==> results[i] == Ok(Gather(results).value[i])
    ensures Gather(results).Err? ==> exists i :: 0 <= i < |results| && results[i] == Err(Gather(results).error)
  {
    if results != [] {
      var tail := results[1..];
      GatherIff(tail);
      assert forall i :: 0 <= i < |tail| ==> tail[i] == results[i + 1];
      assert forall i :: 1 <= i < |results| ==> results[i] == tail[i - 1];
      assert results[0] == results[0];
    }
  }

  /** `to_json` of a query, its distinct children included. */
  function Serialise(q: Tree): Result<Body, Error> {
    if OwnCheck(q).Some? then Err(OwnCheck(q).value)
    else
      match q
      case Leaf(id, _) => Ok(Term(id))
      case Conjunction(_, queries) =>
        var bodies := Gather(SerialiseDistinct(queries));
        if bodies.Err? then Err(bodies.error) else Ok(All(bodies.value))
      case Disjunction(_, queries, min) =>
        var bodies := Gather(SerialiseDistinct(queries));
        if bodies.Err? then Err(bodies.error) else Ok(AtLeast(bodies.value, min))
      case Boolean(_, must, mustNot, should) =>
        var a := if must.IsEmpty() then None else Some(Serialise(must));
        var b := if mustNot.IsEmpty() then None else Some(Serialise(mustNot));
        var c := if should.IsEmpty() then None else Some(Serialise(should));
        if a.Some? && a.value.Err? then Err(a.value.error)
        else if b.Some? && b.value.Err? then Err(b.value.error)
        else if c.Some? && c.value.Err? then Err(c.value.error)
        else
          Ok(Parts(if a.Some? then Some(a.value.value) else None,
                   if b.Some? then Some(b.value.value) else None,
                   if c.Some? then Some(c.value.value) else None))
  }

  function SerialiseDistinct(queries: seq<Tree>): (r: seq<Result<Body, Error>>)
    ensures |r| == |Uniq(queries)|
    decreases queries, 0
  {
    var distinct := Uniq(queries);
    seq(|distinct|, i requires 0 <= i < |distinct| =>
      assert distinct[i] in queries;
      Serialise(distinct[i]))
  }

  /** The children serialise exactly when each of them does; removing repetitions makes no difference to that. */
  lemma DistinctIff(queries: seq<Tree>)
    ensures Gather(SerialiseDistinct(queries)).Ok? <==> forall i :: 0 <= i < |queries| ==> Serialise(queries[i]).Ok?
    ensures var r := Gather(SerialiseDistinct(queries));
            r.Ok? ==>
              && |r.value| == |Uniq(queries)|
              && forall i :: 0 <= i < |r.value| ==> Serialise(Uniq(queries)[i]) == Ok(r.value[i])
    ensures var r := Gather(SerialiseDistinct(queries));
            r.Err? ==> exists i :: 0 <= i < |queries| && Serialise(queries[i]) == Err(r.error)
  {
    hide Serialise, Uniq, NoDuplicates;
    var distinct, results := Uniq(queries), SerialiseDistinct(queries);
    assert forall i :: 0 <= i < |distinct| ==> results[i] == Serialise(distinct[i]);
    GatherIff(results);
    if Gather(results).Ok? {
      forall i | 0 <= i < |queries|
        ensures Serialise(queries[i]).Ok?
      {
        var k :| 0 <= k < |distinct| && distinct[k] == queries[i];
        assert results[k].Ok?;
      }
    } else {
      var k :| 0 <= k < |results| && results[k] == Err(Gather(results).error);
      var i :| 0 <= i < |queries| && queries[i] == distinct[k];
    }
  }

  // ----- which queries decide whether serialising fails

  /** The queries `to_json` gets to: the query itself, its children, theirs, and so on, but not the empty parts of a
      boolean query. */
  ghost predicate Reaches(q: Tree, n: Tree) {
    || n == q
    || match q {
         case Leaf(_, _) => false
         case Conjunction(_, queries) => exists i :: 0 <= i < |queries| && Reaches(queries[i], n)
         case Disjunction(_, queries, _) => exists i :: 0 <= i < |queries| && Reaches(queries[i], n)
         case Boolean(_, must, mustNot, should) =>
           || (!must.IsEmpty() && Reaches(must, n))
           || (!mustNot.IsEmpty() && Reaches(mustNot, n))
           || (!should.IsEmpty() && Reaches(should, n))
       }
  }

  lemma {:induction false} OkMeansSound(q: Tree, n: Tree)
    requires Serialise(q).Ok? && Reaches(q, n)
    ensures OwnCheck(n) == None
    decreases q
  {
    hide Gather, Uniq;
    if n != q {
      match q
      case Conjunction(_, queries) =>
        DistinctIff(queries);
        var i :| 0 <= i < |queries| && Reaches(queries[i], n);
        OkMeansSound(queries[i], n);
      case Disjunction(_, queries, _) =>
        DistinctIff(queries);
        var i :| 0 <= i < |queries| && Reaches(queries[i], n);
        OkMeansSound(queries[i], n);
      case Boolean(_, must, mustNot, should) =>
        if !must.IsEmpty() && Reaches(must, n) {
          OkMeansSound(must, n);
        } else if !mustNot.IsEmpty() && Reaches(mustNot, n) {
          OkMeansSound(mustNot, n);
        } else {
          OkMeansSound(should, n);
        }
    }
  }

  lemma {:induction false} ErrHasOrigin(q: Tree) returns (n: Tree)
    requires Serialise(q).Err?
    ensures Reaches(q, n) && OwnCheck(n) == Some(Serialise(q).error)
    decreases q
  {
    hide Gather, Uniq;
    if OwnCheck(q).Some? {
      n := q;
    } else {
      match q
      case Conjunction(_, queries) =>
        DistinctIff(queries);
        var i :| 0 <= i < |queries| && Serialise(queries[i]) == Err(Serialise(q).error);
        n := ErrHasOrigin(queries[i]);
      case Disjunction(_, queries, _) =>
        DistinctIff(queries);
        var i :| 0 <= i < |queries| && Serialise(queries[i]) == Err(Serialise(q).error);
        n := ErrHasOrigin(queries[i]);
      case Boolean(_, must, mustNot, should) =>
        if !must.IsEmpty() && Serialise(must).Err? {
          n := ErrHasOrigin(must);
        } else if !mustNot.IsEmpty() && Serialise(mustNot).Err? {
          n := ErrHasOrigin(mustNot);
        } else {
          n := ErrHasOrigin(should);
        }
    }
  }

  predicate HasNoQueries(q: Tree) {
    (q.Conjunction? || q.Disjunction?) && |q.queries| == 0
  }

  /** The queries that cannot be serialised whatever their children are, each with its exception. */
  predicate Refused(n: Tree, e: Error) {
    match n
    case Leaf(_, unbounded) => unbounded && e == NoBounds
    case Conjunction(_, queries) => |queries| == 0 && e == NoSubQueries
    case Disjunction(_, queries, min) =>
      || (|queries| == 0 && e == NoSubQueries)
      || (|queries| > 0 && min.Some? && min.value > |queries| && e == FewerThanMinimum)
    case Boolean(_, must, mustNot, should) =>
      HasNoQueries(must) && HasNoQueries(mustNot) && HasNoQueries(should) && e == NothingToSend
  }

  lemma OwnCheckRefuses(n: Tree, e: Error)
    ensures OwnCheck(n) == Some(e) <==> Refused(n, e)
  {
  }

  /** Serialising a query fails exactly when some query it gets to, at any depth, is a range without bounds, a conjunction
      or disjunction without children, a disjunction with fewer children than its minimum, or a boolean query whose three
      parts are empty; and it raises the exception of such a query. */
  lemma SerialiseFailsIff(q: Tree)
    ensures Serialise(q).Err? <==> exists n, e :: Reaches(q, n) && Refused(n, e)
    ensures Serialise(q).Err? ==> exists n :: Reaches(q, n) && Refused(n, Serialise(q).error)
  {
    hide Serialise, Reaches, OwnCheck, Refused;
    if Serialise(q).Err? {
      var n := ErrHasOrigin(q);
      OwnCheckRefuses(n, Serialise(q).error);
    } else if n, e :| Reaches(q, n) && Refused(n, e) {
      OwnCheckRefuses(n, e);
      OkMeansSound(q, n);
    }
  }

  /** What is sent for a query: its distinct children in order, with its own minimum, or its parts that are not empty. */
  lemma BodyShape(q: Tree)
    requires Serialise(q).Ok?
    ensures match q {
              case Leaf(id, _) => Serialise(q).value == Term(id)
              case Conjunction(_, queries) =>
                Serialise(q).value.All? && AreBodies(Serialise(q).value.conjuncts, Uniq(queries))
              case Disjunction(_, queries, min) =>
                && Serialise(q).value.AtLeast? && AreBodies(Serialise(q).value.disjuncts, Uniq(queries))
                && Serialise(q).value.min == min
              case Boolean(_, must, mustNot, should) =>
                && Serialise(q).value.Parts?
                && IsPart(Serialise(q).value.must, must)
                && IsPart(Serialise(q).value.mustNot, mustNot)
                && IsPart(Serialise(q).value.should, should)
            }
  {
    hide Gather, Uniq, SerialiseDistinct;
    if q.Conjunction? || q.Disjunction? { DistinctIff(q.queries); }
  }

  ghost predicate AreBodies(bodies: seq<Body>, queries: seq<Tree>) {
    |bodies| == |queries| && forall i :: 0 <= i < |bodies| ==> Serialise(queries[i]) == Ok(bodies[i])
  }

  ghost predicate IsPart(part: Option<Body>, q: Tree) {
    if HasNoQueries(q) then part == None else part.Some? && Serialise(q) == Ok(part.value)
  }

  // ----- which exception is raised

  /** The queries `to_json` gets to, in the order in which it does if nothing raises and nothing is left out as repeated. */
  function Visits(q: Tree): seq<Tree>
    decreases q
  {
    [q] +
    match q
    case Leaf(_, _) => []
    case Conjunction(_, queries) => VisitsAll(queries)
    case Disjunction(_, queries, _) => VisitsAll(queries)
    case Boolean(_, must, mustNot, should) =>
      (if HasNoQueries(must) then [] else Visits(must))
      + (if HasNoQueries(mustNot) then [] else Visits(mustNot))
      + (if HasNoQueries(should) then [] else Visits(should))
  }

  function VisitsAll(queries: seq<Tree>): seq<Tree>
    decreases queries
  {
    if queries == [] then [] else Visits(queries[0]) + VisitsAll(queries[1..])
  }

  function FirstRefusal(ns: seq<Tree>): Option<Error> {
    if ns == [] then None
    else if OwnCheck(ns[0]).Some? then OwnCheck(ns[0])
    else FirstRefusal(ns[1..])
  }

  lemma {:induction false} FirstRefusalConcat(a: seq<Tree>, b: seq<Tree>)
    ensures FirstRefusal(a + b) == if FirstRefusal(a).Some? then FirstRefusal(a) else FirstRefusal(b)
  {
    hide OwnCheck;
    if a == [] {
      assert a + b == b;
    } else {
      assert (a + b)[1..] == a[1..] + b;
      FirstRefusalConcat(a[1..], b);
    }
  }

  function Failure<T>(r: Result<T, Error>): Option<Error> {
    if r.Err? then Some(r.error) else None
  }

  function SerialiseEach(queries: seq<Tree>): (r: seq<Result<Body, Error>>)
    ensures |r| == |queries|
    ensures forall i :: 0 <= i < |queries| ==> r[i] == Serialise(queries[i])
  {
    seq(|queries|, i requires 0 <= i < |queries| => Serialise(queries[i]))
  }

  lemma {:induction false} GatherAppend(results: seq<Result<Body, Error>>, last: Result<Body, Error>)
    ensures Failure(Gather(results + [last])) == if Gather(results).Err? then Failure(Gather(results)) else Failure(last)
  {
    if results == [] {
      assert results + [last] == [last] && [last][1..] == [];
    } else {
      assert (results + [last])[1..] == results[1..] + [last];
      GatherAppend(results[1..], last);
    }
  }

  /** Leaving out repeated children does not change which exception comes first. */
  lemma {:induction false} DistinctFailure(queries: seq<Tree>)
    ensures Failure(Gather(SerialiseEach(Uniq(queries)))) == Failure(Gather(SerialiseEach(queries)))
    decreases |queries|
  {
    hide Gather, Serialise, Uniq, NoDuplicates, SameElements;
    if queries == [] {
      UniqEmpty(queries);
    } else {
      var t, x := queries[..|queries| - 1], queries[|queries| - 1];
      assert queries == t + [x];
      DistinctFailure(t);
      UniqAppend(t, x);
      assert SerialiseEach(queries) == SerialiseEach(t) + [Serialise(x)];
      GatherAppend(SerialiseEach(t), Serialise(x));
      if x in t {
        if Serialise(x).Err? { RepeatedFailure(t, x); }
      } else {
        assert SerialiseEach(Uniq(queries)) == SerialiseEach(Uniq(t)) + [Serialise(x)];
        GatherAppend(SerialiseEach(Uniq(t)), Serialise(x));
      }
    }
  }

  lemma RepeatedFailure(queries: seq<Tree>, x: Tree)
    requires x in queries && Serialise(x).Err?
    ensures Gather(SerialiseEach(queries)).Err?
  {
    hide Gather, Serialise;
    GatherIff(SerialiseEach(queries));
    var i :| 0 <= i < |queries| && queries[i] == x;
    assert SerialiseEach(queries)[i].Err?;
  }

  lemma {:induction false} ChildrenFailure(queries: seq<Tree>)
    ensures FirstRefusal(VisitsAll(queries)) == Failure(Gather(SerialiseEach(queries)))
    decreases queries
  {
    hide Serialise, Visits;
    if queries != [] {
      FirstFailure(queries[0]);
      ChildrenFailure(queries[1..]);
      FirstRefusalConcat(Visits(queries[0]), VisitsAll(queries[1..]));
      assert SerialiseEach(queries)[1..] == SerialiseEach(queries[1..]);
    }
  }

  lemma {:induction false} FirstFailure(q: Tree)
    ensures FirstRefusal(Visits(q)) == Failure(Serialise(q))
    decreases q
  {
    hide FirstRefusal, Serialise, Visits, OwnCheck;
    if OwnCheck(q).Some? {
      OwnFailure(q);
    } else {
      VisitsRest(q);
      PartsFailure(q);
      match q
      case Leaf(_, _) =>
      case Conjunction(_, queries) =>
        ChildrenFailure(queries);
        DistinctFailure(queries);
      case Disjunction(_, queries, _) =>
        ChildrenFailure(queries);
        DistinctFailure(queries);
      case Boolean(_, must, mustNot, should) =>
        if !HasNoQueries(must) { FirstFailure(must); }
        if !HasNoQueries(mustNot) { FirstFailure(mustNot); }
        if !HasNoQueries(should) { FirstFailure(should); }
    }
  }

  lemma OwnFailure(q: Tree)
    requires OwnCheck(q).Some?
    ensures FirstRefusal(Visits(q)) == Failure(Serialise(q))
  {
    hide OwnCheck;
    assert Visits(q)[0] == q;
  }

  /** Past its own check, the failure of a query is the first among its children or parts. */
  lemma PartsFailure(q: Tree)
    requires OwnCheck(q).None?
    ensures q.Leaf? ==> Failure(Serialise(q)) == None
    ensures q.Conjunction? || q.Disjunction? ==> Failure(Serialise(q)) == Failure(Gather(SerialiseEach(Uniq(q.queries))))
    ensures q.Boolean? ==>
              var a := if HasNoQueries(q.must) then None else Failure(Serialise(q.must));
              var b := if HasNoQueries(q.mustNot) then None else Failure(Serialise(q.mustNot));
              var c := if HasNoQueries(q.should) then None else Failure(Serialise(q.should));
              Failure(Serialise(q)) == if a.Some? then a else if b.Some? then b else c
  {
    hide Gather, Uniq, OwnCheck, SerialiseDistinct, SerialiseEach;
    if q.Conjunction? || q.Disjunction? { EachDistinct(q.queries); }
  }

  lemma EachDistinct(queries: seq<Tree>)
    ensures SerialiseDistinct(queries) == SerialiseEach(Uniq(queries))
  {
    hide Serialise, Uniq;
  }

  /** Past its own check, a query leaves the first refusal to its children or parts. */
  lemma VisitsRest(q: Tree)
    requires OwnCheck(q).None?
    ensures FirstRefusal([]) == None
    ensures q.Leaf? ==> FirstRefusal(Visits(q)) == None
    ensures q.Conjunction? || q.Disjunction? ==> FirstRefusal(Visits(q)) == FirstRefusal(VisitsAll(q.queries))
    ensures q.Boolean? ==>
              var a := if HasNoQueries(q.must) then None else FirstRefusal(Visits(q.must));
              var b := if HasNoQueries(q.mustNot) then None else FirstRefusal(Visits(q.mustNot));
              var c := if HasNoQueries(q.should) then None else FirstRefusal(Visits(q.should));
              FirstRefusal(Visits(q)) == if a.Some? then a else if b.Some? then b else c
  {
    assert FirstRefusal([q]) == None by { assert [q][1..] == []; }
    FirstRefusalConcat([q], Visits(q)[1..]);
    assert Visits(q) == [q] + Visits(q)[1..];
    if q.Boolean? {
      var a := if HasNoQueries(q.must) then [] else Visits(q.must);
      var b := if HasNoQueries(q.mustNot) then [] else Visits(q.mustNot);
      var c := if HasNoQueries(q.should) then [] else Visits(q.should);
      assert Visits(q)[1..] == a + b + c;
      FirstRefusalConcat(a + b, c);
      FirstRefusalConcat(a, b);
    }
  }

  lemma {:induction false} FirstRefusalMeans(ns: seq<Tree>, e: Error)
    ensures FirstRefusal(ns) == Some(e) <==>
            exists i :: 0 <= i < |ns| && OwnCheck(ns[i]) == Some(e) && forall j :: 0 <= j < i ==> OwnCheck(ns[j]) == None
  {
    hide OwnCheck;
    if ns != [] && OwnCheck(ns[0]).None? {
      var tail := ns[1..];
      FirstRefusalMeans(tail, e);
      if i :| 0 <= i < |tail| && OwnCheck(tail[i]) == Some(e) && forall j :: 0 <= j < i ==> OwnCheck(tail[j]) == None {
        assert OwnCheck(ns[i + 1]) == Some(e);
        assert forall j :: 1 <= j < i + 1 ==> ns[j] == tail[j - 1];
      }
      if i :| 0 <= i < |ns| && OwnCheck(ns[i]) == Some(e) && forall j :: 0 <= j < i ==> OwnCheck(ns[j]) == None {
        assert tail[i - 1] == ns[i];
        assert forall j :: 0 <= j < i - 1 ==> tail[j] == ns[j + 1];
      }
    }
  }

  /** The exception raised is that of the first query on the way that is refused, parents before children and children in
      order, whether or not some of them are repeated. */
  lemma FirstRefusalIsRaised(q: Tree, e: Error)
    ensures Serialise(q) == Err(e) <==> exists i :: 0 <= i < |Visits(q)| && FirstRefusedAt(Visits(q), i, e)
  {
    hide Serialise, Visits, FirstRefusal, OwnCheck, Refused;
    var ns := Visits(q);
    FirstFailure(q);
    FirstRefusalMeans(ns, e);
    forall i | 0 <= i < |ns|
      ensures FirstRefusedAt(ns, i, e) <==>
              OwnCheck(ns[i]) == Some(e) && forall j :: 0 <= j < i ==> OwnCheck(ns[j]) == None
    {
      OwnCheckRefuses(ns[i], e);
      NotRefusedBefore(ns, i);
    }
  }

  ghost predicate FirstRefusedAt(ns: seq<Tree>, i: nat, e: Error)
    requires i < |ns|
  {
    Refused(ns[i], e) && NoneRefused(ns[..i])
  }

  ghost predicate NoneRefused(ns: seq<Tree>) {
    forall j, f :: 0 <= j < |ns| ==> !Refused(ns[j], f)
  }

  lemma NotRefusedBefore(ns: seq<Tree>, i: nat)
    requires i < |ns|
    ensures NoneRefused(ns[..i]) <==> forall j :: 0 <= j < i ==> OwnCheck(ns[j]) == None
  {
    hide OwnCheck, Refused;
    if NoneRefused(ns[..i]) {
      forall j | 0 <= j < i
        ensures OwnCheck(ns[j]) == None
      {
        assert ns[..i][j] == ns[j];
        if OwnCheck(ns[j]).Some? { OwnCheckRefuses(ns[j], OwnCheck(ns[j]).value); }
      }
    } else {
      var j, f :| 0 <= j < i && Refused(ns[..i][j], f);
      OwnCheckRefuses(ns[j], f);
    }
  }

  // ----- what a query means, before and after

  function Tally(verdicts: seq<bool>): nat {
    if verdicts == [] then 0 else (if verdicts[0] then 1 else 0) + Tally(verdicts[1..])
  }

  /** Whether a document that satisfies the leaves in `hits` satisfies a query: all children of a conjunction, the minimum
      number of children of a disjunction, the non-empty parts of a boolean query. */
  predicate Holds(hits: set<nat>, q: Tree)
    decreases q
  {
    match q
    case Leaf(id, _) => id in hits
    case Conjunction(_, queries) => forall i :: 0 <= i < |queries| ==> Holds(hits, queries[i])
    case Disjunction(_, queries, min) => Tally(Verdicts(hits, queries)) >= Threshold(min)
    case Boolean(_, must, mustNot, should) =>
      && (must.IsEmpty() || Holds(hits, must))
      && (mustNot.IsEmpty() || !Holds(hits, mustNot))
      && (should.IsEmpty() || Holds(hits, should))
  }

  function Verdicts(hits: set<nat>, queries: seq<Tree>): (r: seq<bool>)
    ensures |r| == |queries|
    decreases queries, 0
  {
    seq(|queries|, i requires 0 <= i < |queries| => Holds(hits, queries[i]))
  }

  /** Whether such a document matches what is sent; a part that is absent asks for nothing. */
  predicate MatchesBody(hits: set<nat>, b: Body)
    decreases b
  {
    match b
    case Term(id) => id in hits
    case All(conjuncts) => forall i :: 0 <= i < |conjuncts| ==> MatchesBody(hits, conjuncts[i])
    case AtLeast(disjuncts, min) => Tally(BodyVerdicts(hits, disjuncts)) >= Threshold(min)
    case Parts(must, mustNot, should) =>
      && (must.Some? ==> MatchesBody(hits, must.value))
      && (mustNot.Some? ==> !MatchesBody(hits, mustNot.value))
      && (should.Some? ==> MatchesBody(hits, should.value))
  }

  function BodyVerdicts(hits: set<nat>, bodies: seq<Body>): (r: seq<bool>)
    ensures |r| == |bodies|
    decreases bodies, 0
  {
    seq(|bodies|, i requires 0 <= i < |bodies| => MatchesBody(hits, bodies[i]))
  }

  /** The children among these that hold. */
  function Holding(hits: set<nat>, queries: seq<Tree>): set<Tree> {
    set q | q in queries && Holds(hits, q)
  }

  lemma {:induction false} TallyIsCount(hits: set<nat>, good: set<Tree>, queries: seq<Tree>)
    requires forall i :: 0 <= i < |queries| ==> (queries[i] in good <==> Holds(hits, queries[i]))
    ensures Tally(Verdicts(hits, queries)) == Count(good, queries)
  {
    hide Holds;
    if queries != [] {
      TallyIsCount(hits, good, queries[1..]);
      assert Verdicts(hits, queries)[1..] == Verdicts(hits, queries[1..]);
    }
  }

  /** A disjunction after `uniq`: unchanged when one child is enough or none is repeated. */
  lemma DistinctTally(hits: set<nat>, queries: seq<Tree>, min: Option<int>)
    requires Threshold(min) <= 1 || NoDuplicates(queries)
    ensures Tally(Verdicts(hits, Uniq(queries))) >= Threshold(min) <==> Tally(Verdicts(hits, queries)) >= Threshold(min)
  {
    hide Holds, Verdicts;
    var good := Holding(hits, queries);
    TallyIsCount(hits, good, queries);
    assert forall i :: 0 <= i < |Uniq(queries)| ==> Uniq(queries)[i] in queries;
    TallyIsCount(hits, good, Uniq(queries));
    hide Uniq, SameElements;
    if NoDuplicates(queries) { UniqIdentity(queries); }
    CountAtLeastUniq(good, queries);
  }

  /** Every disjunction that is reached asks for at most one child or has no repeated child. */
  ghost predicate CountsDistinct(q: Tree) {
    forall n :: Reaches(q, n) && n.Disjunction? ==> Threshold(n.min) <= 1 || NoDuplicates(n.queries)
  }

  lemma ChildCountsDistinct(q: Tree, c: Tree)
    requires CountsDistinct(q)
    requires forall n :: Reaches(c, n) ==> Reaches(q, n)
    ensures CountsDistinct(c)
  {
    hide Reaches;
  }

  /** The children of a list, serialised without repetitions, mean what the distinct children mean. */
  lemma {:induction false} DistinctMeaning(hits: set<nat>, q: Tree, queries: seq<Tree>, bodies: seq<Body>)
    requires q.Conjunction? || q.Disjunction?
    requires queries == q.queries && CountsDistinct(q)
    requires Gather(SerialiseDistinct(queries)) == Ok(bodies)
    ensures |bodies| == |Uniq(queries)|
    ensures forall i :: 0 <= i < |bodies| ==> MatchesBody(hits, bodies[i]) == Holds(hits, Uniq(queries)[i])
    decreases q, 0
  {
    hide Gather, MatchesBody, Holds, Serialise, SerialiseDistinct, Uniq, NoDuplicates, CountsDistinct;
    DistinctIff(queries);
    forall i | 0 <= i < |bodies|
      ensures MatchesBody(hits, bodies[i]) == Holds(hits, Uniq(queries)[i])
    {
      var k :| 0 <= k < |queries| && queries[k] == Uniq(queries)[i];
      ChildCountsDistinct(q, queries[k]);
      SerialiseMeaning(hits, queries[k]);
    }
  }

  /** For every document, what is sent matches exactly when the tree of queries holds, provided that every disjunction in it
      asks for at most one child or has no repeated child. */
  lemma {:induction false} SerialiseMeaning(hits: set<nat>, q: Tree)
    requires Serialise(q).Ok? && CountsDistinct(q)
    ensures MatchesBody(hits, Serialise(q).value) <==> Holds(hits, q)
    decreases q, 1
  {
    hide Gather, SerialiseDistinct, Uniq, CountsDistinct;
    match q
    case Leaf(_, _) =>
    case Conjunction(_, queries) =>
      var bodies := Gather(SerialiseDistinct(queries)).value;
      DistinctMeaning(hits, q, queries, bodies);
      ConjunctionHolds(hits, queries);
    case Disjunction(_, queries, min) =>
      var bodies := Gather(SerialiseDistinct(queries)).value;
      DistinctMeaning(hits, q, queries, bodies);
      assert BodyVerdicts(hits, bodies) == Verdicts(hits, Uniq(queries));
      DisjunctionIsFit(q);
      DistinctTally(hits, queries, min);
    case Boolean(_, must, mustNot, should) =>
      PartsCountDistinct(q);
      if !must.IsEmpty() { SerialiseMeaning(hits, must); }
      if !mustNot.IsEmpty() { SerialiseMeaning(hits, mustNot); }
      if !should.IsEmpty() { SerialiseMeaning(hits, should); }
  }

  lemma DisjunctionIsFit(q: Tree)
    requires q.Disjunction? && CountsDistinct(q)
    ensures Threshold(q.min) <= 1 || NoDuplicates(q.queries)
  {
    assert Reaches(q, q);
  }

  lemma PartsCountDistinct(q: Tree)
    requires q.Boolean? && CountsDistinct(q)
    ensures !q.must.IsEmpty() ==> CountsDistinct(q.must)
    ensures !q.mustNot.IsEmpty() ==> CountsDistinct(q.mustNot)
    ensures !q.should.IsEmpty() ==> CountsDistinct(q.should)
  {
    if !q.must.IsEmpty() { ChildCountsDistinct(q, q.must); }
    if !q.mustNot.IsEmpty() { ChildCountsDistinct(q, q.mustNot); }
    if !q.should.IsEmpty() { ChildCountsDistinct(q, q.should); }
  }

  ghost predicate AllHold(hits: set<nat>, queries: seq<Tree>) {
    forall i :: 0 <= i < |queries| ==> Holds(hits, queries[i])
  }

  /** All distinct children hold exactly when all children do. */
  lemma ConjunctionHolds(hits: set<nat>, queries: seq<Tree>)
    ensures AllHold(hits, Uniq(queries)) <==> AllHold(hits, queries)
  {
    hide AllHold, NoDuplicates;
    if AllHold(hits, queries) { SameHold(hits, queries, Uniq(queries)); }
    if AllHold(hits, Uniq(queries)) { SameHold(hits, Uniq(queries), queries); }
  }

  lemma SameHold(hits: set<nat>, s: seq<Tree>, t: seq<Tree>)
    requires SameElements(s, t) && AllHold(hits, s)
    ensures AllHold(hits, t)
  {
    hide Holds;
    forall i | 0 <= i < |t|
      ensures Holds(hits, t[i])
    {
      var k :| 0 <= k < |s| && s[k] == t[i];
    }
  }

  // ----- boolean queries made by builder calls

  /** The boolean query a run of builder calls makes, with its three parts. */
  function Built(calls: seq<Call<Tree>>): Tree {
    var c := Run(NewClauses(), calls);
    Boolean(0, Conjunction(1, c.must), Disjunction(2, c.mustNot, None), Disjunction(3, c.should, c.min))
  }

  /** Every query ever given to a builder call. */
  function Given(calls: seq<Call<Tree>>): seq<Tree> {
    MustArgs(calls) + MustNotArgs(calls) + ShouldArgs(calls)
  }

  ghost predicate AllSerialise(queries: seq<Tree>) {
    forall i :: 0 <= i < |queries| ==> Serialise(queries[i]).Ok?
  }

  lemma UniqSerialise(queries: seq<Tree>)
    ensures AllSerialise(Uniq(queries)) <==> AllSerialise(queries)
  {
    hide AllSerialise, NoDuplicates;
    if AllSerialise(queries) { SameSerialise(queries, Uniq(queries)); }
    if AllSerialise(Uniq(queries)) { SameSerialise(Uniq(queries), queries); }
  }

  lemma SameSerialise(s: seq<Tree>, t: seq<Tree>)
    requires SameElements(s, t) && AllSerialise(s)
    ensures AllSerialise(t)
  {
    hide Serialise;
    forall i | 0 <= i < |t|
      ensures Serialise(t[i]).Ok?
    {
      var k :| 0 <= k < |s| && s[k] == t[i];
    }
  }

  lemma PartSerialises(q: Tree)
    requires q.Conjunction? || q.Disjunction?
    ensures Serialise(q).Ok? <==> OwnCheck(q).None? && AllSerialise(q.queries)
  {
    hide Gather, SerialiseDistinct, Uniq;
    DistinctIff(q.queries);
  }

  /** Serialising such a query fails exactly when no query was ever given, or fewer distinct "should" queries than the
      minimum, or one of the queries given does not serialise itself. */
  lemma BuiltFailsIff(calls: seq<Call<Tree>>)
    ensures var should, min := Uniq(ShouldArgs(calls)), LastMin(calls, None);
            Serialise(Built(calls)).Err? <==>
              || Given(calls) == []
              || (should != [] && min.Some? && min.value > |should|)
              || !AllSerialise(Given(calls))
  {
    hide Serialise, AllSerialise, Uniq, Run, NoDuplicates, SameElements;
    BuilderRuns(calls);
    var m, n, s := MustArgs(calls), MustNotArgs(calls), ShouldArgs(calls);
    UniqEmpty(m);
    UniqEmpty(n);
    UniqEmpty(s);
    UniqSerialise(m);
    UniqSerialise(n);
    UniqSerialise(s);
    BooleanSerialises(Built(calls));
    GivenOk(m, n, s);
  }

  lemma BooleanSerialises(q: Tree)
    requires q.Boolean? && q.must.Conjunction? && q.mustNot.Disjunction? && q.should.Disjunction?
    requires q.mustNot.min == None
    ensures var should, min := q.should.queries, q.should.min;
            Serialise(q).Ok? <==>
              && !(q.must.queries == [] && q.mustNot.queries == [] && should == [])
              && !(should != [] && min.Some? && min.value > |should|)
              && AllSerialise(q.must.queries) && AllSerialise(q.mustNot.queries) && AllSerialise(should)
  {
    hide Serialise, AllSerialise;
    BooleanStep(q);
    PartSerialises(q.must);
    PartSerialises(q.mustNot);
    PartSerialises(q.should);
    NoneSerialise();
  }

  lemma BooleanStep(q: Tree)
    requires q.Boolean?
    ensures Serialise(q).Ok? <==>
            && OwnCheck(q).None?
            && (q.must.IsEmpty() || Serialise(q.must).Ok?)
            && (q.mustNot.IsEmpty() || Serialise(q.mustNot).Ok?)
            && (q.should.IsEmpty() || Serialise(q.should).Ok?)
  {
  }

  lemma NoneSerialise()
    ensures AllSerialise([])
  {
  }

  lemma GivenOk(m: seq<Tree>, n: seq<Tree>, s: seq<Tree>)
    ensures AllSerialise(m + n + s) <==> AllSerialise(m) && AllSerialise(n) && AllSerialise(s)
  {
    hide Serialise;
    var all := m + n + s;
    assert forall i :: 0 <= i < |m| ==> m[i] == all[i];
    assert forall i :: 0 <= i < |n| ==> n[i] == all[|m| + i];
    assert forall i :: 0 <= i < |s| ==> s[i] == all[|m| + |n| + i];
  }

  /** From builder calls to documents, at every depth: if each query given counts only distinct children, a document matches
      what is sent exactly when every query given to `must` holds, none given to `must_not` does and, if any was given to
      `should`, at least the last minimum of distinct ones hold. */
  lemma BuiltMeaning(calls: seq<Call<Tree>>, hits: set<nat>)
    requires Serialise(Built(calls)).Ok?
    requires forall i :: 0 <= i < |Given(calls)| ==> CountsDistinct(Given(calls)[i])
    ensures MatchesBody(hits, Serialise(Built(calls)).value) <==>
              && AllHold(hits, MustArgs(calls))
              && Holding(hits, MustNotArgs(calls)) == {}
              && (ShouldArgs(calls) != [] ==> |Holding(hits, ShouldArgs(calls))| >= Threshold(LastMin(calls, None)))
  {
    hide Serialise, MatchesBody, Uniq, Run, NoDuplicates, SameElements;
    BuilderRuns(calls);
    var b := Built(calls);
    var m, n, s := MustArgs(calls), MustNotArgs(calls), ShouldArgs(calls);
    BuiltCountsDistinct(calls);
    SerialiseMeaning(hits, b);
    UniqEmpty(m);
    UniqEmpty(n);
    UniqEmpty(s);
    ConjunctionHolds(hits, m);
    TallyDistinct(hits, n);
    TallyDistinct(hits, s);
    if n == [] { assert Holding(hits, n) == {}; }
  }

  /** Without repetitions, the tally is the number of distinct queries that hold. */
  lemma TallyDistinct(hits: set<nat>, queries: seq<Tree>)
    ensures Tally(Verdicts(hits, Uniq(queries))) == |Holding(hits, queries)|
  {
    hide Holds, Verdicts, Count;
    var good := Holding(hits, queries);
    assert forall i :: 0 <= i < |Uniq(queries)| ==> Uniq(queries)[i] in queries;
    TallyIsCount(hits, good, Uniq(queries));
    CountUniq(good, queries);
    assert good * Elements(queries) == good;
  }

  lemma BuiltCountsDistinct(calls: seq<Call<Tree>>)
    requires forall i :: 0 <= i < |Given(calls)| ==> CountsDistinct(Given(calls)[i])
    ensures CountsDistinct(Built(calls))
  {
    hide Uniq, Run, CountsDistinct, NoDuplicates, SameElements, MustArgs, MustNotArgs, ShouldArgs, LastMin;
    var b := Built(calls);
    BuilderRuns(calls);
    var m, n, s := MustArgs(calls), MustNotArgs(calls), ShouldArgs(calls);
    PartFromGiven(b.must, m, Given(calls), 0);
    PartFromGiven(b.mustNot, n, Given(calls), |m|);
    PartFromGiven(b.should, s, Given(calls), |m| + |n|);
    BooleanFromParts(b);
  }

  lemma BooleanFromParts(q: Tree)
    requires q.Boolean? && CountsDistinct(q.must) && CountsDistinct(q.mustNot) && CountsDistinct(q.should)
    ensures CountsDistinct(q)
  {
    hide NoDuplicates;
    forall n | Reaches(q, n) && n.Disjunction?
      ensures Threshold(n.min) <= 1 || NoDuplicates(n.queries)
    {
      assert Reaches(q.must, n) || Reaches(q.mustNot, n) || Reaches(q.should, n);
    }
  }

  /** A part that holds the distinct ones of some given queries counts only distinct children. */
  lemma PartFromGiven(part: Tree, args: seq<Tree>, given: seq<Tree>, at: nat)
    requires part.Conjunction? || part.Disjunction?
    requires part.queries == Uniq(args)
    requires at + |args| <= |given| && given[at..at + |args|] == args
    requires forall i :: 0 <= i < |given| ==> CountsDistinct(given[i])
    ensures CountsDistinct(part)
  {
    hide Uniq, NoDuplicates, CountsDistinct, Reaches;
    forall i | 0 <= i < |part.queries|
      ensures CountsDistinct(part.queries[i])
    {
      var k :| 0 <= k < |args| && args[k] == part.queries[i];
      assert given[at + k] == args[k];
    }
    DistinctFromChildren(part);
  }

  lemma DistinctFromChildren(q: Tree)
    requires q.Conjunction? || q.Disjunction?
    requires NoDuplicates(q.queries)
    requires forall i :: 0 <= i < |q.queries| ==> CountsDistinct(q.queries[i])
    ensures CountsDistinct(q)
  {
    hide NoDuplicates;
    forall n | Reaches(q, n) && n.Disjunction?
      ensures Threshold(n.min) <= 1 || NoDuplicates(n.queries)
    {
      if n != q {
        var i :| 0 <= i < |q.queries| && Reaches(q.queries[i], n);
        assert CountsDistinct(q.queries[i]);
      }
    }
  }
}
