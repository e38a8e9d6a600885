/** The multi-document operations: Ruby values as the C++ binding sees them, the extraction and validation of
    the argument tuples, the requests built from them, and the Ruby methods of Collection around them.
    Running the requests is the business of FanOut. */
module MultiOps {
  import opened Wrappers
  import FanOut

  // ----- Ruby values

  datatype Value = Nil | Str(text: string) | Integer(n: int) | Arr(items: seq<Value>) | Other

  /** `rb_ary_entry`: nil past the end. */
  function Entry(v: Value, i: nat): Value {
    if v.Arr? && i < |v.items| then v.items[i] else Nil
  }

  datatype Reason =
    | ClusterClosed | BadOption | NotAnArray | EmptyArray | BadTuple | BadBucket | BadCollection | BadId
    | BadContent | BadFlags | BadCas | BadRemoveId

  datatype Exception = ArgumentError(reason: Reason) | RangeError

  const TWO_31: int := 0x8000_0000
  const TWO_32: int := 0x1_0000_0000
  const TWO_62: int := 0x4000_0000_0000_0000
  const TWO_63: int := 0x8000_0000_0000_0000
  const TWO_64: int := 0x1_0000_0000_0000_0000

  /** `T_FIXNUM` on a 64-bit platform; other integers are `T_BIGNUM`. */
  predicate IsFixnum(v: Value) {
    v.Integer? && -TWO_62 <= v.n < TWO_62
  }

  /** `FIX2UINT`: two's complement in 32 bits; RangeError when no 32-bit integer has these digits. */
  function Fix2Uint(n: int): (r: Result<int, Exception>)
    ensures r.Ok? <==> -TWO_31 <= n < TWO_32
    ensures r.Ok? ==> 0 <= r.value < TWO_32 && (n - r.value) % TWO_32 == 0
  {
    if n < -TWO_31 || n >= TWO_32 then Err(RangeError) else Ok(n % TWO_32)
  }

  /** `NUM2ULL`, likewise in 64 bits. */
  function Num2Ull(n: int): (r: Result<int, Exception>)
    ensures r.Ok? <==> -TWO_63 <= n < TWO_64
    ensures r.Ok? ==> 0 <= r.value < TWO_64 && (n - r.value) % TWO_64 == 0
  {
    if n < -TWO_63 || n >= TWO_64 then Err(RangeError) else Ok(n % TWO_64)
  }

  // ----- extraction: one tuple

  datatype DocumentId = DocumentId(bucket: string, collection: string, key: string)

  /** The three leading fields of every tuple, checked in order. */
  function ParseDocumentId(entry: Value): Result<DocumentId, Exception> {
    if !Entry(entry, 0).Str? then Err(ArgumentError(BadBucket))
    else if !Entry(entry, 1).Str? then Err(ArgumentError(BadCollection))
    else if !Entry(entry, 2).Str? then Err(ArgumentError(BadId))
    else Ok(DocumentId(Entry(entry, 0).text, Entry(entry, 1).text, Entry(entry, 2).text))
  }

  predicate IsTuple(entry: Value, size: nat) {
    entry.Arr? && |entry.items| == size
  }

  function ParseId(entry: Value): Result<DocumentId, Exception> {
    if !IsTuple(entry, 3) then Err(ArgumentError(BadTuple)) else ParseDocumentId(entry)
  }

  function ParseIdContent(entry: Value): Result<(DocumentId, string, int), Exception> {
    if !IsTuple(entry, 5) then Err(ArgumentError(BadTuple))
    else
      var id := ParseDocumentId(entry);
      if id.Err? then Err(id.error)
      else if !Entry(entry, 3).Str? then Err(ArgumentError(BadContent))
      else if !IsFixnum(Entry(entry, 4)) then Err(ArgumentError(BadFlags))
      else
        var flags := Fix2Uint(Entry(entry, 4).n);
        if flags.Err? then Err(flags.error) else Ok((id.value, Entry(entry, 3).text, flags.value))
  }

  function ParseCas(cas: Value): Result<int, Exception> {
    if cas.Nil? then Ok(0)
    else if cas.Integer? then Num2Ull(cas.n)
    else Err(ArgumentError(BadCas))
  }

  function ParseIdCas(entry: Value): Result<(DocumentId, int), Exception> {
    if !IsTuple(entry, 4) then Err(ArgumentError(BadTuple))
    else
      var id := ParseDocumentId(entry);
      if id.Err? then Err(id.error)
      else
        var cas := ParseCas(Entry(entry, 3));
        if cas.Err? then Err(cas.error) else Ok((id.value, cas.value))
  }

  // ----- extraction: all tuples

  /** All parsed values in order, or the first failure. */
  function Traverse<T>(parse: Value -> Result<T, Exception>, items: seq<Value>): Result<seq<T>, Exception> {
    if items == [] then Ok([])
    else
      match parse(items[0])
      case Err(e) => Err(e)
      case Ok(x) =>
        match Traverse(parse, items[1..])
        case Err(e) => Err(e)
        case Ok(xs) => Ok([x] + xs)
  }

  function ParseArray<T>(parse: Value -> Result<T, Exception>, arg: Value): Result<seq<T>, Exception> {
    if !arg.Arr? then Err(ArgumentError(NotAnArray))
    else if arg.items == [] then Err(ArgumentError(EmptyArray))
    else Traverse(parse, arg.items)
  }

  /** Parsing succeeds exactly when every item does, and then item by item. */
  lemma {:induction false} TraverseIff<T>(parse: Value -> Result<T, Exception>, items: seq<Value>)
    ensures Traverse(parse, items).Ok? <==> forall i :: 0 <= i < |items| ==> parse(items[i]).Ok?
    ensures var r := Traverse(parse, items);
            r.Ok? ==> |r.value| == |items| && forall i :: 0 <= i < |items| ==> parse(items[i]) == Ok(r.value[i])
  {
    if items != [] {
      TraverseIff(parse, items[1..]);
      assert forall i :: 1 <= i < |items| ==> items[i] == items[1..][i - 1];
      assert items[0] == items[0];
      if forall i :: 0 <= i < |items| ==> parse(items[i]).Ok? {
        assert forall i :: 0 <= i < |items[1..]| ==> items[1..][i] == items[i + 1];
      }
    }
  }

  /** After a prefix that parses, the next item decides. */
  lemma {:induction false} TraverseStep<T>(parse: Value -> Result<T, Exception>, items: seq<Value>, i: nat)
    requires i < |items| && Traverse(parse, items[..i]).Ok?
    ensures parse(items[i]).Err? ==> Traverse(parse, items) == Err(parse(items[i]).error)
    ensures parse(items[i]).Ok? ==>
              Traverse(parse, items[..i + 1]) == Ok(Traverse(parse, items[..i]).value + [parse(items[i]).value])
  {
    if i > 0 {
      assert items[..i][1..] == items[1..][..i - 1];
      assert items[..i + 1][1..] == items[1..][..i];
      TraverseStep(parse, items[1..], i - 1);
      if parse(items[i]).Ok? {
        var x, xs, y := parse(items[0]).value, Traverse(parse, items[1..][..i - 1]).value, parse(items[i]).value;
        assert [x] + (xs + [y]) == [x] + xs + [y];
      }
    } else {
      assert items[..0] == [] && items[..1][1..] == [] && items[..1][0] == items[0];
      if parse(items[0]).Ok? {
        var x: T := parse(items[0]).value;
        assert Traverse(parse, items[..1]) == Ok([x] + []);
        assert [x] + [] == [] + [x];
      }
    }
  }

  /** The first item that does not parse decides the exception. */
  lemma TraverseFirst<T>(parse: Value -> Result<T, Exception>, items: seq<Value>, i: nat)
    requires i < |items| && parse(items[i]).Err?
    requires forall j :: 0 <= j < i ==> parse(items[j]).Ok?
    ensures Traverse(parse, items) == Err(parse(items[i]).error)
  {
    TraverseIff(parse, items[..i]);
    TraverseStep(parse, items, i);
  }

  /** `cb_extract_array_of_ids`. */
  method ExtractIds(arg: Value) returns (r: Result<seq<DocumentId>, Exception>)
    ensures r == ParseArray(ParseId, arg)
  {
    if !arg.Arr? {
      return Err(ArgumentError(NotAnArray));
    }
    if |arg.items| < 1 {
      return Err(ArgumentError(EmptyArray));
    }
    var ids := [];
    for i := 0 to |arg.items|
      invariant Traverse(ParseId, arg.items[..i]) == Ok(ids)
    {
      TraverseStep(ParseId, arg.items, i);
      var id := ParseId(arg.items[i]);
      if id.Err? {
        return Err(id.error);
      }
      ids := ids + [id.value];
    }
    assert arg.items[..|arg.items|] == arg.items;
    r := Ok(ids);
  }

  /** `cb_extract_array_of_id_content`. */
  method ExtractIdContent(arg: Value) returns (r: Result<seq<(DocumentId, string, int)>, Exception>)
    ensures r == ParseArray(ParseIdContent, arg)
  {
    if !arg.Arr? {
      return Err(ArgumentError(NotAnArray));
    }
    if |arg.items| < 1 {
      return Err(ArgumentError(EmptyArray));
    }
    var tuples := [];
    for i := 0 to |arg.items|
      invariant Traverse(ParseIdContent, arg.items[..i]) == Ok(tuples)
    {
      TraverseStep(ParseIdContent, arg.items, i);
      var tuple := ParseIdContent(arg.items[i]);
      if tuple.Err? {
        return Err(tuple.error);
      }
      tuples := tuples + [tuple.value];
    }
    assert arg.items[..|arg.items|] == arg.items;
    r := Ok(tuples);
  }

  /** `cb_extract_array_of_id_cas`. */
  method ExtractIdCas(arg: Value) returns (r: Result<seq<(DocumentId, int)>, Exception>)
    ensures r == ParseArray(ParseIdCas, arg)
  {
    if !arg.Arr? {
      return Err(ArgumentError(NotAnArray));
    }
    if |arg.items| < 1 {
      return Err(ArgumentError(EmptyArray));
    }
    var tuples := [];
    for i := 0 to |arg.items|
      invariant Traverse(ParseIdCas, arg.items[..i]) == Ok(tuples)
    {
      TraverseStep(ParseIdCas, arg.items, i);
      var tuple := ParseIdCas(arg.items[i]);
      if tuple.Err? {
        return Err(tuple.error);
      }
      tuples := tuples + [tuple.value];
    }
    assert arg.items[..|arg.items|] == arg.items;
    r := Ok(tuples);
  }

  // ----- requests

  /** Option hashes are parsed elsewhere; these are the outcomes. A timeout of 0 leaves the default in place. */
  datatype Durability = Durability(level: nat, timeout: Option<nat>)
  datatype GetOptions = GetOptions(timeout: nat)
  datatype UpsertOptions = UpsertOptions(timeout: nat, durability: Durability, expiry: Option<int>, preserveExpiry: bool)
  datatype RemoveOptions = RemoveOptions(timeout: nat, durability: Durability)

  datatype GetRequest = GetRequest(id: DocumentId, timeout: Option<nat>)
  datatype UpsertRequest = UpsertRequest(
    id: DocumentId, content: string, flags: int,
    timeout: Option<nat>, durability: Durability, expiry: int, preserveExpiry: bool)
  datatype RemoveRequest = RemoveRequest(id: DocumentId, cas: int, timeout: Option<nat>, durability: Durability)

  function Timeout(ms: nat): Option<nat> {
    if ms > 0 then Some(ms) else None
  }

  /** The bodies of the three dispatch loops up to `execute`. Extraction comes after option parsing, so there are no tuples
      to build from when the options did not parse. */
  function BuildGet(options: Result<GetOptions, Exception>, id: DocumentId): Result<GetRequest, Exception> {
    if options.Err? then Err(options.error) else Ok(GetRequest(id, Timeout(options.value.timeout)))
  }

  /** The expiry is converted, and its range checked, anew for every request. */
  function BuildUpsert(options: Result<UpsertOptions, Exception>, t: (DocumentId, string, int))
    : Result<UpsertRequest, Exception>
  {
    if options.Err? then Err(options.error)
    else
      var o := options.value;
      var expiry := if o.expiry.Some? then Fix2Uint(o.expiry.value) else Ok(0);
      if expiry.Err? then Err(expiry.error)
      else Ok(UpsertRequest(t.0, t.1, t.2, Timeout(o.timeout), o.durability, expiry.value, o.preserveExpiry))
  }

  function BuildRemove(options: Result<RemoveOptions, Exception>, t: (DocumentId, int)): Result<RemoveRequest, Exception> {
    if options.Err? then Err(options.error)
    else Ok(RemoveRequest(t.0, t.1, Timeout(options.value.timeout), options.value.durability))
  }

  function Map<A, B>(f: A -> B, xs: seq<A>): (ys: seq<B>)
    ensures |ys| == |xs|
    ensures forall i :: 0 <= i < |xs| ==> ys[i] == f(xs[i])
  {
    seq(|xs|, i requires 0 <= i < |xs| => f(xs[i]))
  }

  /** What precedes the dispatch loop of each operation: an open cluster, then the options, then the tuples. */
  function Extracted<O, T>(
    open: bool, options: Result<O, Exception>, parse: Value -> Result<T, Exception>, arg: Value): Result<seq<T>, Exception>
  {
    if !open then Err(ArgumentError(ClusterClosed))
    else if options.Err? then Err(options.error)
    else ParseArray(parse, arg)
  }

  // ----- responses

  datatype Error = Error(ec: nat, message: string)
  datatype Token = Token(partitionUuid: nat, sequenceNumber: nat, partitionId: nat, bucketName: string)

  datatype GetResponse = GetResponse(ec: Option<nat>, value: string, cas: nat, flags: nat)
  datatype MutationResponse = MutationResponse(ec: Option<nat>, cas: nat, token: Token)

  /** The hashes the binding returns; a missing `error` key reads as nil. */
  datatype GetEntry = GetEntry(error: Option<Error>, content: string, cas: nat, flags: nat)
  datatype MutationEntry = MutationEntry(error: Option<Error>, cas: nat, mutationToken: Token)

  function ToGetEntry(r: GetResponse): GetEntry {
    GetEntry(if r.ec.Some? then Some(Error(r.ec.value, "unable to (multi)fetch document")) else None,
             r.value, r.cas, r.flags)
  }

  function ToMutationEntry(message: string, r: MutationResponse): MutationEntry {
    MutationEntry(if r.ec.Some? then Some(Error(r.ec.value, message)) else None, r.cas, r.token)
  }

  // ----- the Ruby methods

  datatype Collection = Collection(bucketName: string, scopeName: string, name: string) {
    function Spec(): string { scopeName + "." + name }
  }

  datatype GetResult = GetResult(cas: nat, flags: nat, encoded: string, error: Option<Error>)
  datatype MutationResult = MutationResult(cas: nat, mutationToken: Token, error: Option<Error>)

  function ToGetResult(e: GetEntry): GetResult {
    GetResult(e.cas, e.flags, e.content, e.error)
  }

  function ToMutationResult(e: MutationEntry): MutationResult {
    MutationResult(e.cas, e.mutationToken, e.error)
  }

  function GetTuple(c: Collection, id: Value): Value {
    Arr([Str(c.bucketName), Str(c.Spec()), id])
  }

  /** Block parameters `|(id, content)|` take an element apart; one that is not an array binds the first alone. */
  function First(v: Value): Value {
    if v.Arr? then Entry(v, 0) else v
  }

  function Second(v: Value): Value {
    if v.Arr? then Entry(v, 1) else Nil
  }

  /** A transcoder turns content into a blob and flags. */
  type Transcoder = Value -> (Value, Value)

  function EncodeContent(transcoder: Option<Transcoder>, content: Value): (Value, Value) {
    match transcoder
    case None => (content, Integer(0))
    case Some(encode) => encode(content)
  }

  function UpsertTuple(c: Collection, transcoder: Option<Transcoder>, pair: Value): Value {
    var blob := EncodeContent(transcoder, Second(pair));
    Arr([Str(c.bucketName), Str(c.Spec()), First(pair), blob.0, blob.1])
  }

  function RemoveTuple(c: Collection, id: Value): Result<Value, Exception> {
    match id
    case Str(_) => Ok(Arr([Str(c.bucketName), Str(c.Spec()), id, Nil]))
    case Arr(_) => Ok(Arr([Str(c.bucketName), Str(c.Spec()), Entry(id, 0), Entry(id, 1)]))
    case _ => Err(ArgumentError(BadRemoveId))
  }

  /** What `get_multi`, `upsert_multi` and `remove_multi` set in motion. */
  function GetMulti(c: Collection, open: bool, options: Result<GetOptions, Exception>, ids: seq<Value>)
    : FanOut.Job<DocumentId, GetRequest, Exception>
  {
    FanOut.Job(Extracted(open, options, ParseId, Arr(Map(id => GetTuple(c, id), ids))),
               id => BuildGet(options, id))
  }

  function UpsertMulti(c: Collection, open: bool, options: Result<UpsertOptions, Exception>,
                       transcoder: Option<Transcoder>, pairs: seq<Value>)
    : FanOut.Job<(DocumentId, string, int), UpsertRequest, Exception>
  {
    FanOut.Job(Extracted(open, options, ParseIdContent, Arr(Map(p => UpsertTuple(c, transcoder, p), pairs))),
               t => BuildUpsert(options, t))
  }

  function RemoveMulti(c: Collection, open: bool, options: Result<RemoveOptions, Exception>, ids: seq<Value>)
    : FanOut.Job<(DocumentId, int), RemoveRequest, Exception>
  {
    var tuples := Traverse(id => RemoveTuple(c, id), ids);
    FanOut.Job(if tuples.Err? then Err(tuples.error) else Extracted(open, options, ParseIdCas, Arr(tuples.value)),
               t => BuildRemove(options, t))
  }

  /** What the three methods return for the responses collected. */
  function GetResults(responses: seq<GetResponse>): seq<GetResult> {
    Map(r => ToGetResult(ToGetEntry(r)), responses)
  }

  function UpsertResults(responses: seq<MutationResponse>): seq<MutationResult> {
    Map(r => ToMutationResult(ToMutationEntry("unable (multi)upsert", r)), responses)
  }

  function RemoveResults(responses: seq<MutationResponse>): seq<MutationResult> {
    Map(r => ToMutationResult(ToMutationEntry("unable (multi)remove", r)), responses)
  }
}
