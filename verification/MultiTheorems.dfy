/** What the multi-document operations guarantee from one end to the other: which arguments are accepted,
    that nothing is sent otherwise, and that entry i of what Ruby returns answers argument i. */
module MultiTheorems {
  import opened Wrappers
  import opened MultiOps
  import FanOut

  // ----- tuples

  predicate IsArray(entry: Value, size: nat) {
    entry.Arr? && |entry.items| == size
  }

  /** The three fields all tuples begin with: which of them is refused first. */
  ghost predicate NamesRefused(entry: Value, e: Exception) {
    && entry.Arr? && |entry.items| >= 3
    && match e {
         case ArgumentError(BadBucket) => !entry.items[0].Str?
         case ArgumentError(BadCollection) => entry.items[0].Str? && !entry.items[1].Str?
         case ArgumentError(BadId) => entry.items[0].Str? && entry.items[1].Str? && !entry.items[2].Str?
         case _ => false
       }
  }

  ghost predicate NamesAccepted(entry: Value) {
    entry.Arr? && |entry.items| >= 3 && entry.items[0].Str? && entry.items[1].Str? && entry.items[2].Str?
  }

  /** A tuple is read as an id exactly when it is the array of those three strings; any other is refused for its shape or
      the first field that is no string. */
  lemma IdTuples(entry: Value, d: DocumentId, e: Exception)
    ensures ParseId(entry) == Ok(d) <==> entry == Arr([Str(d.bucket), Str(d.collection), Str(d.key)])
    ensures ParseId(entry) == Err(e) <==>
            if IsArray(entry, 3) then NamesRefused(entry, e) else e == ArgumentError(BadTuple)
  {
    if IsArray(entry, 3) {
      assert entry.items == [entry.items[0], entry.items[1], entry.items[2]];
    }
  }

  /** Likewise with content and flags; the flags are a small integer that fits in 32 bits, and are sent modulo 2^32. */
  lemma ContentTuples(entry: Value, d: DocumentId, content: string, flags: int, e: Exception)
    ensures ParseIdContent(entry) == Ok((d, content, flags)) <==>
            exists n :: -0x8000_0000 <= n < 0x1_0000_0000 && flags == (if n < 0 then n + 0x1_0000_0000 else n)
                        && entry == Arr([Str(d.bucket), Str(d.collection), Str(d.key), Str(content), Integer(n)])
    ensures ParseIdContent(entry) == Err(e) <==>
            if !IsArray(entry, 5) then e == ArgumentError(BadTuple)
            else if !NamesAccepted(entry) then NamesRefused(entry, e)
            else if !entry.items[3].Str? then e == ArgumentError(BadContent)
            else FlagsRefused(entry.items[4], e)
  {
    if IsArray(entry, 5) {
      var f := entry.items;
      assert f == [f[0], f[1], f[2], f[3], f[4]];
      if f[4].Integer? && -0x8000_0000 <= f[4].n < 0x1_0000_0000 {
        WrapsAround(f[4].n, 0x1_0000_0000);
        assert NamesAccepted(entry) && f[3].Str? ==>
            entry == Arr([Str(f[0].text), Str(f[1].text), Str(f[2].text), Str(f[3].text), Integer(f[4].n)]);
      }
    }
  }

  predicate FlagsRefused(flags: Value, e: Exception) {
    if !flags.Integer? || !(-0x4000_0000_0000_0000 <= flags.n < 0x4000_0000_0000_0000) then e == ArgumentError(BadFlags)
    else !(-0x8000_0000 <= flags.n < 0x1_0000_0000) && e == RangeError
  }

  lemma WrapsAround(n: int, m: int)
    requires 0 < m && -m <= n < m
    ensures n % m == if n < 0 then n + m else n
  {
  }

  /** Likewise with a CAS, 0 for nil, otherwise an integer that fits in 64 bits, sent modulo 2^64. */
  lemma CasTuples(entry: Value, d: DocumentId, cas: int, e: Exception)
    ensures ParseIdCas(entry) == Ok((d, cas)) <==>
            && IsArray(entry, 4) && entry.items[..3] == [Str(d.bucket), Str(d.collection), Str(d.key)]
            && CasOk(entry.items[3]) && cas == CasSent(entry.items[3])
    ensures ParseIdCas(entry) == Err(e) <==>
            if !IsArray(entry, 4) then e == ArgumentError(BadTuple)
            else if !NamesAccepted(entry) then NamesRefused(entry, e)
            else !CasOk(entry.items[3]) && e == (if entry.items[3].Integer? then RangeError else ArgumentError(BadCas))
  {
    if IsArray(entry, 4) {
      var f := entry.items;
      assert f[..3] == [f[0], f[1], f[2]];
      if f[3].Integer? && CasOk(f[3]) { WrapsAround(f[3].n, 0x1_0000_0000_0000_0000); }
    }
  }

  predicate CasOk(cas: Value) {
    cas.Nil? || (cas.Integer? && -0x8000_0000_0000_0000 <= cas.n < 0x1_0000_0000_0000_0000)
  }

  /** The CAS sent: 0 when none was given. */
  function CasSent(cas: Value): int {
    if !cas.Integer? then 0 else if cas.n < 0 then cas.n + 0x1_0000_0000_0000_0000 else cas.n
  }

  /** Extraction refuses anything but an array, and the empty array, and raises for the first tuple it cannot read. */
  lemma ArrayRaises<T>(parse: Value -> Result<T, Exception>, arg: Value, i: nat)
    ensures !arg.Arr? ==> ParseArray(parse, arg) == Err(ArgumentError(NotAnArray))
    ensures arg == Arr([]) ==> ParseArray(parse, arg) == Err(ArgumentError(EmptyArray))
    ensures arg.Arr? && i < |arg.items| && parse(arg.items[i]).Err? && (forall j :: 0 <= j < i ==> parse(arg.items[j]).Ok?) ==>
              ParseArray(parse, arg) == Err(parse(arg.items[i]).error)
  {
    if arg.Arr? && i < |arg.items| && parse(arg.items[i]).Err? && forall j :: 0 <= j < i ==> parse(arg.items[j]).Ok? {
      TraverseFirst(parse, arg.items, i);
    }
  }

  // ----- get_multi

  ghost predicate GetOk(open: bool, options: Result<GetOptions, Exception>, ids: seq<Value>) {
    open && options.Ok? && ids != [] && forall i :: 0 <= i < |ids| ==> ids[i].Str?
  }

  function ExpectedGet(c: Collection, o: GetOptions, id: Value): GetRequest
    requires id.Str?
  {
    GetRequest(DocumentId(c.bucketName, c.scopeName + "." + c.name, id.text),
               if o.timeout > 0 then Some(o.timeout) else None)
  }

  /** `get_multi` sends requests exactly when the cluster is open, the options parse and there is at least one
      id and all are strings; request i is for id i. A build never fails. */
  lemma GetMultiAccepts(c: Collection, open: bool, options: Result<GetOptions, Exception>, ids: seq<Value>)
    ensures var job := GetMulti(c, open, options, ids);
            && (job.tuples.Ok? <==> GetOk(open, options, ids))
            && (FanOut.Sendable(job) <==> GetOk(open, options, ids))
            && FanOut.FailsFirst(job)
            && (job.tuples.Ok? ==>
                  && |job.tuples.value| == |ids|
                  && forall i :: 0 <= i < |ids| ==>
                       job.build(job.tuples.value[i]) == Ok(ExpectedGet(c, options.value, ids[i])))
  {
    var tuples := Map(id => GetTuple(c, id), ids);
    TraverseIff(ParseId, tuples);
    forall i | 0 <= i < |ids|
      ensures ParseId(tuples[i]) == if ids[i].Str? then Ok(DocumentId(c.bucketName, c.scopeName + "." + c.name, ids[i].text))
                                    else Err(ArgumentError(BadId))
    {
      assert tuples[i] == GetTuple(c, ids[i]);
    }
    if i :| 0 <= i < |ids| && !ids[i].Str? {
      assert ParseId(tuples[i]).Err?;
    }
  }

  /** Otherwise it raises: for a closed cluster, then for the options, for no ids, for an id that is no string. */
  lemma GetMultiRaises(c: Collection, open: bool, options: Result<GetOptions, Exception>, ids: seq<Value>)
    requires !GetOk(open, options, ids)
    ensures GetMulti(c, open, options, ids).tuples ==
            Err(if !open then ArgumentError(ClusterClosed)
                else if options.Err? then options.error
                else if ids == [] then ArgumentError(EmptyArray)
                else ArgumentError(BadId))
  {
    if open && options.Ok? && ids != [] {
      var tuples := Map(id => GetTuple(c, id), ids);
      var i := FirstBad((id: Value) => id.Str?, ids);
      TraverseFirst(ParseId, tuples, i);
    }
  }

  lemma {:induction false} FirstBad(good: Value -> bool, items: seq<Value>) returns (i: nat)
    requires exists k :: 0 <= k < |items| && !good(items[k])
    ensures i < |items| && !good(items[i]) && forall j :: 0 <= j < i ==> good(items[j])
  {
    i := 0;
    while good(items[i])
      invariant i < |items| && forall j :: 0 <= j < i ==> good(items[j])
      decreases |items| - i
    {
      i := i + 1;
    }
  }

  /** In every run that returns, entry i of the result is built from the cluster's answer to the request
      for id i, and carries that answer's error exactly when it failed. */
  lemma GetMultiInOrder(c: Collection, open: bool, options: Result<GetOptions, Exception>, ids: seq<Value>,
                        run: seq<FanOut.State<GetRequest, GetResponse, Exception>>)
    requires FanOut.IsRun(GetMulti(c, open, options, ids), run)
    requires run[|run| - 1].main.Done?
    ensures var s := run[|run| - 1];
            var out := GetResults(s.results);
            && GetOk(open, options, ids)
            && |out| == |ids| == |s.executed|
            && forall i :: 0 <= i < |ids| ==>
                 && s.executed[i].req == ExpectedGet(c, options.value, ids[i])
                 && i in s.answers
                 && out[i].encoded == s.answers[i].value
                 && out[i].cas == s.answers[i].cas
                 && out[i].flags == s.answers[i].flags
                 && out[i].error == ErrorOf(s.answers[i].ec, "unable to (multi)fetch document")
  {
    hide GetMulti, FanOut.FailsFirst;
    FanOut.ResultsInRequestOrder(GetMulti(c, open, options, ids), run);
    GetMultiAccepts(c, open, options, ids);
  }

  /** An error in the result exactly when the answer has one, with its code. */
  function ErrorOf(ec: Option<nat>, message: string): Option<Error> {
    if ec.Some? then Some(Error(ec.value, message)) else None
  }

  // ----- upsert_multi

  /** The id of a pair is its first element, the content its second; anything but an array is an id without content. */
  function IdOf(pair: Value): Value {
    if !pair.Arr? then pair else if |pair.items| > 0 then pair.items[0] else Nil
  }

  function ContentOf(pair: Value): Value {
    if pair.Arr? && |pair.items| > 1 then pair.items[1] else Nil
  }

  /** What is stored and its flags: as the transcoder says, or the content itself and 0. */
  function Stored(transcoder: Option<Transcoder>, pair: Value): (Value, Value) {
    if transcoder.Some? then transcoder.value(ContentOf(pair)) else (ContentOf(pair), Integer(0))
  }

  predicate UpsertPairOk(transcoder: Option<Transcoder>, pair: Value) {
    var (blob, flags) := Stored(transcoder, pair);
    IdOf(pair).Str? && blob.Str? && flags.Integer? && -0x8000_0000 <= flags.n < 0x1_0000_0000
  }

  predicate ExpiryOk(o: UpsertOptions) {
    o.expiry.Some? ==> -0x8000_0000 <= o.expiry.value < 0x1_0000_0000
  }

  ghost predicate PairsOk(
    open: bool, options: Result<UpsertOptions, Exception>, transcoder: Option<Transcoder>, pairs: seq<Value>)
  {
    open && options.Ok? && pairs != [] && forall i :: 0 <= i < |pairs| ==> UpsertPairOk(transcoder, pairs[i])
  }

  ghost predicate UpsertOk(
    open: bool, options: Result<UpsertOptions, Exception>, transcoder: Option<Transcoder>, pairs: seq<Value>)
  {
    PairsOk(open, options, transcoder, pairs) && ExpiryOk(options.value)
  }

  /** The request for a pair: its own id, content and flags, and the options of the batch. */
  function ExpectedUpsert(c: Collection, o: UpsertOptions, transcoder: Option<Transcoder>, pair: Value): UpsertRequest
    requires UpsertPairOk(transcoder, pair) && ExpiryOk(o)
  {
    var (id, content, flags) := ExpectedTuple(c, transcoder, pair);
    UpsertRequest(id, content, flags, if o.timeout > 0 then Some(o.timeout) else None, o.durability,
                  if o.expiry.Some? then o.expiry.value % 0x1_0000_0000 else 0, o.preserveExpiry)
  }

  function ExpectedTuple(c: Collection, transcoder: Option<Transcoder>, pair: Value): (DocumentId, string, int)
    requires UpsertPairOk(transcoder, pair)
  {
    var (blob, flags) := Stored(transcoder, pair);
    (DocumentId(c.bucketName, c.scopeName + "." + c.name, IdOf(pair).text), blob.text, flags.n % 0x1_0000_0000)
  }

  lemma UpsertTupleParses(c: Collection, transcoder: Option<Transcoder>, pair: Value)
    ensures ParseIdContent(UpsertTuple(c, transcoder, pair)) ==
            if UpsertPairOk(transcoder, pair) then Ok(ExpectedTuple(c, transcoder, pair))
            else Err(PairException(transcoder, pair))
  {
  }

  /** Why a pair is refused. */
  function PairException(transcoder: Option<Transcoder>, pair: Value): Exception {
    var (blob, flags) := Stored(transcoder, pair);
    if !IdOf(pair).Str? then ArgumentError(BadId)
    else if !blob.Str? then ArgumentError(BadContent)
    else if !flags.Integer? || !(-0x4000_0000_0000_0000 <= flags.n < 0x4000_0000_0000_0000) then ArgumentError(BadFlags)
    else RangeError
  }

  /** The pairs of `upsert_multi` are extracted exactly when all are acceptable. */
  lemma UpsertMultiExtracts(c: Collection, open: bool, options: Result<UpsertOptions, Exception>,
                            transcoder: Option<Transcoder>, pairs: seq<Value>)
    ensures var job := UpsertMulti(c, open, options, transcoder, pairs);
            && (job.tuples.Ok? <==> PairsOk(open, options, transcoder, pairs))
            && (job.tuples.Ok? ==>
                  && |job.tuples.value| == |pairs|
                  && forall i :: 0 <= i < |pairs| ==>
                       && UpsertPairOk(transcoder, pairs[i])
                       && job.tuples.value[i] == ExpectedTuple(c, transcoder, pairs[i]))
  {
    hide ParseIdContent, UpsertTuple, UpsertPairOk, ExpectedTuple;
    var tuples := Map(p => UpsertTuple(c, transcoder, p), pairs);
    TraverseIff(ParseIdContent, tuples);
    forall i | 0 <= i < |pairs|
      ensures ParseIdContent(tuples[i]) ==
              if UpsertPairOk(transcoder, pairs[i]) then Ok(ExpectedTuple(c, transcoder, pairs[i]))
              else Err(PairException(transcoder, pairs[i]))
    {
      UpsertTupleParses(c, transcoder, pairs[i]);
    }
    if i :| 0 <= i < |pairs| && !UpsertPairOk(transcoder, pairs[i]) {
      assert ParseIdContent(tuples[i]).Err?;
    }
  }

  /** Otherwise extraction raises: for a closed cluster, then for the options, for no pairs, for the first pair that is not
      acceptable. */
  lemma UpsertMultiRaises(c: Collection, open: bool, options: Result<UpsertOptions, Exception>,
                          transcoder: Option<Transcoder>, pairs: seq<Value>, i: nat)
    ensures var t := UpsertMulti(c, open, options, transcoder, pairs).tuples;
            && (!open ==> t == Err(ArgumentError(ClusterClosed)))
            && (open && options.Err? ==> t == Err(options.error))
            && (open && options.Ok? && pairs == [] ==> t == Err(ArgumentError(EmptyArray)))
            && (open && options.Ok? && i < |pairs| && !UpsertPairOk(transcoder, pairs[i])
                && (forall j :: 0 <= j < i ==> UpsertPairOk(transcoder, pairs[j]))
                ==> t == Err(PairException(transcoder, pairs[i])))
  {
    hide ParseIdContent, UpsertTuple, UpsertPairOk, ExpectedTuple, PairException;
    if open && options.Ok? && i < |pairs| && !UpsertPairOk(transcoder, pairs[i])
       && forall j :: 0 <= j < i ==> UpsertPairOk(transcoder, pairs[j]) {
      var tuples := Map(p => UpsertTuple(c, transcoder, p), pairs);
      forall j | 0 <= j <= i
        ensures ParseIdContent(tuples[j]) ==
                if UpsertPairOk(transcoder, pairs[j]) then Ok(ExpectedTuple(c, transcoder, pairs[j]))
                else Err(PairException(transcoder, pairs[j]))
      {
        UpsertTupleParses(c, transcoder, pairs[j]);
      }
      TraverseFirst(ParseIdContent, tuples, i);
    }
  }

  /** Building an upsert fails, in the middle of the dispatch loop, only for the expiry, which is the same for all pairs. */
  lemma UpsertBuildFails(options: Result<UpsertOptions, Exception>, t: (DocumentId, string, int))
    requires options.Ok?
    ensures BuildUpsert(options, t).Ok? <==> ExpiryOk(options.value)
  {
  }

  /** `upsert_multi` sends requests exactly when every pair is acceptable and the expiry, if any, fits; request i carries
      what pair i says. When the expiry does not fit, the very first build fails. */
  lemma UpsertMultiAccepts(c: Collection, open: bool, options: Result<UpsertOptions, Exception>,
                           transcoder: Option<Transcoder>, pairs: seq<Value>)
    ensures var job := UpsertMulti(c, open, options, transcoder, pairs);
            && (FanOut.Sendable(job) <==> UpsertOk(open, options, transcoder, pairs))
            && FanOut.FailsFirst(job)
            && (FanOut.Sendable(job) ==>
                  && |job.tuples.value| == |pairs|
                  && forall i :: 0 <= i < |pairs| ==>
                       job.build(job.tuples.value[i]) == Ok(ExpectedUpsert(c, options.value, transcoder, pairs[i])))
  {
    var job := UpsertMulti(c, open, options, transcoder, pairs);
    UpsertMultiExtracts(c, open, options, transcoder, pairs);
    hide Extracted, ExpectedTuple, UpsertPairOk;
    if job.tuples.Ok? {
      forall i | 0 <= i < |pairs|
        ensures job.build(job.tuples.value[i]).Ok? <==> ExpiryOk(options.value)
      {
        UpsertBuildFails(options, job.tuples.value[i]);
      }
      if !ExpiryOk(options.value) {
        assert job.build(job.tuples.value[0]).Err?;
      }
    }
  }

  lemma UpsertMultiInOrder(c: Collection, open: bool, options: Result<UpsertOptions, Exception>,
                           transcoder: Option<Transcoder>, pairs: seq<Value>,
                           run: seq<FanOut.State<UpsertRequest, MutationResponse, Exception>>)
    requires FanOut.IsRun(UpsertMulti(c, open, options, transcoder, pairs), run)
    requires run[|run| - 1].main.Done?
    ensures var s := run[|run| - 1];
            var out := UpsertResults(s.results);
            && UpsertOk(open, options, transcoder, pairs)
            && |out| == |pairs| == |s.executed|
            && forall i :: 0 <= i < |pairs| ==>
                 && s.executed[i].req == ExpectedUpsert(c, options.value, transcoder, pairs[i])
                 && i in s.answers
                 && out[i].cas == s.answers[i].cas
                 && out[i].mutationToken == s.answers[i].token
                 && out[i].error == ErrorOf(s.answers[i].ec, "unable (multi)upsert")
  {
    hide UpsertMulti, ExpectedUpsert, UpsertPairOk, FanOut.FailsFirst;
    FanOut.ResultsInRequestOrder(UpsertMulti(c, open, options, transcoder, pairs), run);
    UpsertMultiAccepts(c, open, options, transcoder, pairs);
  }

  /** The flat list of the documented example, ids and hashes in turn, raises: a hash is taken for an id. */
  lemma FlatListRaises(c: Collection, options: Result<UpsertOptions, Exception>, transcoder: Option<Transcoder>)
    ensures UpsertMulti(c, true, options, transcoder, [Str("foo"), Other, Str("bar"), Other]).tuples.Err?
  {
    var pairs := [Str("foo"), Other, Str("bar"), Other];
    assert !UpsertPairOk(transcoder, pairs[1]);
    hide UpsertMulti;
    UpsertMultiExtracts(c, true, options, transcoder, pairs);
  }

  // ----- remove_multi

  /** A string, or an array of a string and an optional CAS that fits in 64 bits. */
  predicate RemoveIdOk(id: Value) {
    || id.Str?
    || (id.Arr? && IdOf(id).Str? && CasOk(ContentOf(id)))
  }

  ghost predicate RemoveOk(open: bool, options: Result<RemoveOptions, Exception>, ids: seq<Value>) {
    open && options.Ok? && ids != [] && forall i :: 0 <= i < |ids| ==> RemoveIdOk(ids[i])
  }

  /** The request for an id: its own CAS if it comes with one, 0 otherwise. */
  function ExpectedRemove(c: Collection, o: RemoveOptions, id: Value): RemoveRequest
    requires RemoveIdOk(id)
  {
    var (d, cas) := ExpectedIdCas(c, id);
    RemoveRequest(d, cas, if o.timeout > 0 then Some(o.timeout) else None, o.durability)
  }

  function ExpectedIdCas(c: Collection, id: Value): (DocumentId, int)
    requires RemoveIdOk(id)
  {
    (DocumentId(c.bucketName, c.scopeName + "." + c.name, if id.Str? then id.text else IdOf(id).text),
     if id.Str? then 0 else CasSent(ContentOf(id)))
  }

  /** Why an id is refused once it is known to be a string or an array. */
  function RemoveException(id: Value): Exception {
    if !IdOf(id).Str? then ArgumentError(BadId)
    else if !ContentOf(id).Integer? then ArgumentError(BadCas)
    else RangeError
  }

  lemma RemoveTupleParses(c: Collection, id: Value)
    ensures RemoveTuple(c, id).Ok? <==> id.Str? || id.Arr?
    ensures RemoveTuple(c, id).Err? ==> RemoveTuple(c, id).error == ArgumentError(BadRemoveId)
    ensures RemoveIdOk(id) ==> id.Str? || id.Arr?
    ensures RemoveTuple(c, id).Ok? ==>
              ParseIdCas(RemoveTuple(c, id).value) ==
              if RemoveIdOk(id) then Ok(ExpectedIdCas(c, id)) else Err(RemoveException(id))
  {
    if id.Arr? && ContentOf(id).Integer? && CasOk(ContentOf(id)) {
      WrapsAround(ContentOf(id).n, 0x1_0000_0000_0000_0000);
    }
  }

  /** `remove_multi` sends requests exactly when every id is acceptable; each request carries the CAS of its own pair.
      A build never fails. */
  lemma RemoveMultiAccepts(c: Collection, open: bool, options: Result<RemoveOptions, Exception>, ids: seq<Value>)
    ensures var job := RemoveMulti(c, open, options, ids);
            && (job.tuples.Ok? <==> RemoveOk(open, options, ids))
            && (FanOut.Sendable(job) <==> RemoveOk(open, options, ids))
            && FanOut.FailsFirst(job)
            && (job.tuples.Ok? ==>
                  && |job.tuples.value| == |ids|
                  && forall i :: 0 <= i < |ids| ==>
                       job.build(job.tuples.value[i]) == Ok(ExpectedRemove(c, options.value, ids[i])))
  {
    hide RemoveTuple, ParseIdCas, RemoveIdOk, ExpectedIdCas, RemoveException;
    var f := id => RemoveTuple(c, id);
    TraverseIff(f, ids);
    forall i | 0 <= i < |ids|
      ensures RemoveIdOk(ids[i]) ==> f(ids[i]).Ok?
    {
      RemoveTupleParses(c, ids[i]);
    }
    var tuples := Traverse(f, ids);
    if tuples.Ok? {
      TraverseIff(ParseIdCas, tuples.value);
      forall i | 0 <= i < |ids|
        ensures ParseIdCas(tuples.value[i]) ==
                if RemoveIdOk(ids[i]) then Ok(ExpectedIdCas(c, ids[i])) else Err(RemoveException(ids[i]))
      {
        assert f(ids[i]) == Ok(tuples.value[i]);
        RemoveTupleParses(c, ids[i]);
      }
    }
  }

  /** Otherwise it raises: in Ruby, before the cluster is looked at, for an id that is neither a string nor an array; then for
      a closed cluster, for the options, for no ids, for the first id that is not acceptable. */
  lemma RemoveMultiRaises(c: Collection, open: bool, options: Result<RemoveOptions, Exception>, ids: seq<Value>, i: nat)
    ensures var t := RemoveMulti(c, open, options, ids).tuples;
            if exists k :: 0 <= k < |ids| && !ids[k].Str? && !ids[k].Arr? then t == Err(ArgumentError(BadRemoveId))
            else
              && (!open ==> t == Err(ArgumentError(ClusterClosed)))
              && (open && options.Err? ==> t == Err(options.error))
              && (open && options.Ok? && ids == [] ==> t == Err(ArgumentError(EmptyArray)))
              && (open && options.Ok? && i < |ids| && !RemoveIdOk(ids[i])
                  && (forall j :: 0 <= j < i ==> RemoveIdOk(ids[j]))
                  ==> t == Err(RemoveException(ids[i])))
  {
    hide RemoveTuple, ParseIdCas, RemoveIdOk, ExpectedIdCas, RemoveException;
    var f := id => RemoveTuple(c, id);
    forall k | 0 <= k < |ids|
      ensures f(ids[k]).Ok? <==> ids[k].Str? || ids[k].Arr?
      ensures f(ids[k]).Err? ==> f(ids[k]).error == ArgumentError(BadRemoveId)
    {
      RemoveTupleParses(c, ids[k]);
    }
    TraverseIff(f, ids);
    if exists k :: 0 <= k < |ids| && !ids[k].Str? && !ids[k].Arr? {
      var k := FirstBad((id: Value) => id.Str? || id.Arr?, ids);
      TraverseFirst(f, ids, k);
    } else if open && options.Ok? && i < |ids| && !RemoveIdOk(ids[i]) && forall j :: 0 <= j < i ==> RemoveIdOk(ids[j]) {
      var tuples := Traverse(f, ids).value;
      forall j | 0 <= j <= i
        ensures ParseIdCas(tuples[j]) ==
                if RemoveIdOk(ids[j]) then Ok(ExpectedIdCas(c, ids[j])) else Err(RemoveException(ids[j]))
      {
        assert f(ids[j]) == Ok(tuples[j]);
        RemoveTupleParses(c, ids[j]);
      }
      TraverseFirst(ParseIdCas, tuples, i);
    }
  }

  lemma RemoveMultiInOrder(c: Collection, open: bool, options: Result<RemoveOptions, Exception>, ids: seq<Value>,
                           run: seq<FanOut.State<RemoveRequest, MutationResponse, Exception>>)
    requires FanOut.IsRun(RemoveMulti(c, open, options, ids), run)
    requires run[|run| - 1].main.Done?
    ensures var s := run[|run| - 1];
            var out := RemoveResults(s.results);
            && RemoveOk(open, options, ids)
            && |out| == |ids| == |s.executed|
            && forall i :: 0 <= i < |ids| ==>
                 && s.executed[i].req == ExpectedRemove(c, options.value, ids[i])
                 && i in s.answers
                 && out[i].cas == s.answers[i].cas
                 && out[i].mutationToken == s.answers[i].token
                 && out[i].error == ErrorOf(s.answers[i].ec, "unable (multi)remove")
  {
    hide RemoveMulti, ExpectedIdCas, RemoveIdOk, FanOut.FailsFirst;
    FanOut.ResultsInRequestOrder(RemoveMulti(c, open, options, ids), run);
    RemoveMultiAccepts(c, open, options, ids);
  }

  // ----- all or nothing

  /** The state of a call that will send nothing, and has not. */
  ghost predicate NothingSent<Req, Resp>(s: FanOut.State<Req, Resp, Exception>) {
    s.executed == [] && (s.main.Start? || s.main == FanOut.Dispatching(0) || s.main.Raised?)
  }

  /** At every moment of every run of `get_multi`: if one id is unacceptable, nothing has been sent;
      otherwise nothing raises and the requests sent so far are those for a prefix of the ids. */
  lemma GetMultiAllOrNothing(c: Collection, open: bool, options: Result<GetOptions, Exception>, ids: seq<Value>,
                             run: seq<FanOut.State<GetRequest, GetResponse, Exception>>, i: nat)
    requires FanOut.IsRun(GetMulti(c, open, options, ids), run) && i < |run|
    ensures var s := run[i];
            if GetOk(open, options, ids)
            then
              && !s.main.Raised?
              && |s.executed| <= |ids|
              && forall k :: 0 <= k < |s.executed| ==> s.executed[k].req == ExpectedGet(c, options.value, ids[k])
            else NothingSent(s)
  {
    hide GetMulti, FanOut.FailsFirst;
    GetMultiAccepts(c, open, options, ids);
    FanOut.AllOrNothing(GetMulti(c, open, options, ids), run, i);
    FanOut.ExecutedIsBuiltPrefix(GetMulti(c, open, options, ids), run, i);
  }

  /** The same for `upsert_multi`, although an expiry out of range raises only inside the dispatch loop. */
  lemma UpsertMultiAllOrNothing(c: Collection, open: bool, options: Result<UpsertOptions, Exception>,
                                transcoder: Option<Transcoder>, pairs: seq<Value>,
                                run: seq<FanOut.State<UpsertRequest, MutationResponse, Exception>>, i: nat)
    requires FanOut.IsRun(UpsertMulti(c, open, options, transcoder, pairs), run) && i < |run|
    ensures var s := run[i];
            if UpsertOk(open, options, transcoder, pairs)
            then
              && !s.main.Raised?
              && |s.executed| <= |pairs|
              && forall k :: 0 <= k < |s.executed| ==>
                   s.executed[k].req == ExpectedUpsert(c, options.value, transcoder, pairs[k])
            else NothingSent(s)
  {
    hide UpsertMulti, UpsertPairOk, ExpectedUpsert, FanOut.FailsFirst;
    UpsertMultiAccepts(c, open, options, transcoder, pairs);
    FanOut.AllOrNothing(UpsertMulti(c, open, options, transcoder, pairs), run, i);
    FanOut.ExecutedIsBuiltPrefix(UpsertMulti(c, open, options, transcoder, pairs), run, i);
  }

  lemma RemoveMultiAllOrNothing(c: Collection, open: bool, options: Result<RemoveOptions, Exception>, ids: seq<Value>,
                                run: seq<FanOut.State<RemoveRequest, MutationResponse, Exception>>, i: nat)
    requires FanOut.IsRun(RemoveMulti(c, open, options, ids), run) && i < |run|
    ensures var s := run[i];
            if RemoveOk(open, options, ids)
            then
              && !s.main.Raised?
              && |s.executed| <= |ids|
              && forall k :: 0 <= k < |s.executed| ==> s.executed[k].req == ExpectedRemove(c, options.value, ids[k])
            else NothingSent(s)
  {
    hide RemoveMulti, RemoveIdOk, ExpectedIdCas, FanOut.FailsFirst;
    RemoveMultiAccepts(c, open, options, ids);
    FanOut.AllOrNothing(RemoveMulti(c, open, options, ids), run, i);
    FanOut.ExecutedIsBuiltPrefix(RemoveMulti(c, open, options, ids), run, i);
  }
}
