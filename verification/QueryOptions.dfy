/** The consistency and parameter settings of `Options::Query` in lib/couchbase/options.rb. */
module QueryOptions {
  import opened Wrappers
  import opened MutationStates

  datatype ScanLevel = NotBounded | RequestPlus

  /** Keys of a Ruby hash; `to_s` makes the same string of a symbol and of its text. */
  datatype Key = Symbol(name: string) | Text(name: string)

  /** The four fields that exclude each other in pairs; `P` is the type of a parameter value. Hashes keep the
      order of insertion. */
  datatype Settings<P> = Settings(
    scanConsistency: Option<ScanLevel>,
    mutationState: MutationState?,
    positional: Option<seq<P>>,
    named: Option<seq<(Key, P)>>)

  /** The setters; each may be given nil. */
  datatype Setter<P> =
    | ScanConsistency(level: Option<ScanLevel>)
    | ConsistentWith(state: MutationState?)
    | PositionalParameters(positional: Option<seq<P>>)
    | NamedParameters(named: Option<seq<(Key, P)>>)
  {
    predicate SetsConsistency() { ScanConsistency? || ConsistentWith? }
  }

  function Apply<P>(s: Settings<P>, setter: Setter<P>): Settings<P> {
    match setter
    case ScanConsistency(level) => s.(mutationState := null, scanConsistency := level)
    case ConsistentWith(state) => s.(scanConsistency := None, mutationState := state)
    case PositionalParameters(positional) => s.(positional := positional, named := None)
    case NamedParameters(named) => s.(named := named, positional := None)
  }

  datatype Error = BothParameterKinds

  /** What is sent to the backend about consistency and parameters. */
  datatype Backend = Backend(
    scanConsistency: Option<ScanLevel>,
    mutationState: Option<seq<TokenData>>,
    positional: Option<seq<string>>,
    named: Option<map<string, string>>)

  /** `export_positional_parameters`; `dump` is `JSON.dump`. */
  function ExportPositional<P>(dump: P -> string, positional: seq<P>): (r: seq<string>)
    ensures |r| == |positional|
    ensures forall i :: 0 <= i < |r| ==> r[i] == dump(positional[i])
  {
    seq(|positional|, i requires 0 <= i < |positional| => dump(positional[i]))
  }

  /** `export_named_parameters`: entry by entry into a hash with string keys. */
  function ExportNamed<P>(dump: P -> string, named: seq<(Key, P)>): map<string, string> {
    if named == [] then map[]
    else
      var last := named[|named| - 1];
      ExportNamed(dump, named[..|named| - 1])[last.0.name := dump(last.1)]
  }

  /** The exported names are the names given; of entries that differ only in being symbol or text, the last one counts. */
  lemma {:induction false} NamedExport<P>(dump: P -> string, named: seq<(Key, P)>, i: nat)
    requires i < |named| && forall j :: i < j < |named| ==> named[j].0.name != named[i].0.name
    ensures named[i].0.name in ExportNamed(dump, named)
    ensures ExportNamed(dump, named)[named[i].0.name] == dump(named[i].1)
    ensures forall n :: n in ExportNamed(dump, named) ==> exists j :: 0 <= j < |named| && named[j].0.name == n
  {
    NamedKeys(dump, named);
    if i < |named| - 1 {
      NamedExport(dump, named[..|named| - 1], i);
    }
  }

  lemma {:induction false} NamedKeys<P>(dump: P -> string, named: seq<(Key, P)>)
    ensures forall n :: n in ExportNamed(dump, named) ==> exists j :: 0 <= j < |named| && named[j].0.name == n
  {
    if named != [] {
      var shorter := named[..|named| - 1];
      NamedKeys(dump, shorter);
      forall n | n in ExportNamed(dump, named)
        ensures exists j :: 0 <= j < |named| && named[j].0.name == n
      {
        if n in ExportNamed(dump, shorter) {
          var j :| 0 <= j < |shorter| && shorter[j].0.name == n;
          assert named[j].0.name == n;
        } else {
          assert named[|named| - 1].0.name == n;
        }
      }
    }
  }

  class Query<P> {
    var scanConsistency: Option<ScanLevel>
    var mutationState: MutationState?
    var positional: Option<seq<P>>
    var named: Option<seq<(Key, P)>>

    function State(): Settings<P>
      reads this
    {
      Settings(scanConsistency, mutationState, positional, named)
    }

    constructor (settings: Settings<P>)
      ensures State() == settings
    {
      scanConsistency, mutationState := settings.scanConsistency, settings.mutationState;
      positional, named := settings.positional, settings.named;
    }

    /** `Query.new`: raises when both kinds of parameters are given. */
    static method New(settings: Settings<P>) returns (r: Result<Query<P>, Error>)
      ensures r.Err? <==> settings.positional.Some? && settings.named.Some?
      ensures r.Ok? ==> fresh(r.value) && r.value.State() == settings
    {
      if settings.positional.Some? && settings.named.Some? {
        return Err(BothParameterKinds);
      }
      var query := new Query(settings);
      return Ok(query);
    }

    /** `scan_consistency=`. */
    method SetScanConsistency(level: Option<ScanLevel>)
      modifies this
      ensures State() == Apply(old(State()), ScanConsistency(level))
    {
      if mutationState != null { mutationState := null; }
      scanConsistency := level;
    }

    /** `consistent_with`. */
    method SetConsistentWith(state: MutationState?)
      modifies this
      ensures State() == Apply(old(State()), ConsistentWith(state))
    {
      if scanConsistency.Some? { scanConsistency := None; }
      mutationState := state;
    }

    /** `positional_parameters`. */
    method SetPositionalParameters(positional: Option<seq<P>>)
      modifies this
      ensures State() == Apply(old(State()), PositionalParameters(positional))
    {
      this.positional := positional;
      named := None;
    }

    /** `named_parameters`. */
    method SetNamedParameters(named: Option<seq<(Key, P)>>)
      modifies this
      ensures State() == Apply(old(State()), NamedParameters(named))
    {
      this.named := named;
      positional := None;
    }

    /** The consistency and parameter part of `to_backend`: tokens and parameters are exported one for one, and a field that
        is not set is not sent. */
    function ToBackend(dump: P -> string): (b: Backend)
      reads this, mutationState, if mutationState == null then [] else mutationState.tokens
      ensures b.scanConsistency == scanConsistency
      ensures b.mutationState.Some? <==> mutationState != null
      ensures mutationState != null ==>
                && |b.mutationState.value| == |mutationState.tokens|
                && forall i :: 0 <= i < |mutationState.tokens| ==> b.mutationState.value[i] == mutationState.tokens[i].Data()
      ensures b.positional.Some? <==> positional.Some?
      ensures positional.Some? ==>
                && |b.positional.value| == |positional.value|
                && forall i :: 0 <= i < |positional.value| ==> b.positional.value[i] == dump(positional.value[i])
      ensures b.named.Some? <==> named.Some?
      ensures named.Some? ==> b.named.value == ExportNamed(dump, named.value)
    {
      Backend(
        scanConsistency,
        if mutationState == null then None else Some(mutationState.ToA()),
        if positional.Some? then Some(ExportPositional(dump, positional.value)) else None,
        if named.Some? then Some(ExportNamed(dump, named.value)) else None)
    }
  }

  // ----- whole runs

  function Run<P>(s: Settings<P>, setters: seq<Setter<P>>): Settings<P>
    decreases setters
  {
    if setters == [] then s else Run(Apply(s, setters[0]), setters[1..])
  }

  predicate OneParameterKind<P>(s: Settings<P>) {
    s.positional.None? || s.named.None?
  }

  ghost predicate OneConsistency<P>(s: Settings<P>) {
    s.scanConsistency.None? || s.mutationState == null
  }

  /** Positional and named parameters are never both set, from a constructor that did not raise through any setters. */
  lemma {:induction false} ParametersExclusive<P>(s: Settings<P>, setters: seq<Setter<P>>)
    requires OneParameterKind(s)
    ensures OneParameterKind(Run(s, setters))
    decreases |setters|
  {
    if setters != [] { ParametersExclusive(Apply(s, setters[0]), setters[1..]); }
  }

  /** The last consistency setter of a run, if there is one. */
  function LastConsistency<P>(setters: seq<Setter<P>>): (r: Option<Setter<P>>)
    ensures r.Some? ==> r.value.SetsConsistency()
    ensures r.None? <==> forall i :: 0 <= i < |setters| ==> !setters[i].SetsConsistency()
  {
    if setters == [] then None
    else
      assert forall i :: 1 <= i < |setters| ==> setters[i] == setters[1..][i - 1];
      assert forall i :: 0 <= i < |setters| - 1 ==> setters[1..][i] == setters[i + 1];
      var later := LastConsistency(setters[1..]);
      if later.Some? then later
      else if setters[0].SetsConsistency() then Some(setters[0])
      else None
  }

  /** The last consistency setter decides alone: its own field holds what it was given and the rival field is clear;
      without one, the fields are as constructed. */
  lemma {:induction false} LastSetterDecides<P>(s: Settings<P>, setters: seq<Setter<P>>)
    ensures var r, last := Run(s, setters), LastConsistency(setters);
            match last {
              case None => r.scanConsistency == s.scanConsistency && r.mutationState == s.mutationState
              case Some(ScanConsistency(level)) => r.scanConsistency == level && r.mutationState == null
              case Some(ConsistentWith(state)) => r.scanConsistency == None && r.mutationState == state
            }
    decreases |setters|
  {
    if setters != [] { LastSetterDecides(Apply(s, setters[0]), setters[1..]); }
  }

  /** The last parameter setter of a run, if there is one. */
  function LastParameters<P>(setters: seq<Setter<P>>): (r: Option<Setter<P>>)
    ensures r.Some? ==> !r.value.SetsConsistency()
  {
    if setters == [] then None
    else
      var later := LastParameters(setters[1..]);
      if later.Some? then later
      else if setters[0].SetsConsistency() then None
      else Some(setters[0])
  }

  /** Likewise the last parameter setter decides both kinds of parameters. */
  lemma {:induction false} LastParametersDecide<P>(s: Settings<P>, setters: seq<Setter<P>>)
    ensures var r, last := Run(s, setters), LastParameters(setters);
            match last {
              case None => r.positional == s.positional && r.named == s.named
              case Some(PositionalParameters(positional)) => r.positional == positional && r.named == None
              case Some(NamedParameters(named)) => r.positional == None && r.named == named
            }
    decreases |setters|
  {
    if setters != [] { LastParametersDecide(Apply(s, setters[0]), setters[1..]); }
  }

  /** A scan level and a mutation state are set together exactly when the constructor was given both and no
      consistency setter has been called since. */
  lemma ConsistencyExclusiveIff<P>(s: Settings<P>, setters: seq<Setter<P>>)
    ensures OneConsistency(Run(s, setters)) <==>
            OneConsistency(s) || exists i :: 0 <= i < |setters| && setters[i].SetsConsistency()
  {
    LastSetterDecides(s, setters);
    var last := LastConsistency(setters);
    if last.Some? {
      match last.value
      case ScanConsistency(_) =>
      case ConsistentWith(_) =>
    }
  }

  /** Giving the constructor a mutation state and nothing else leaves the default scan level beside it. */
  method ConstructorMayHoldBoth<P>(state: MutationState) returns (r: Result<Query<P>, Error>)
    ensures r.Ok? && r.value.mutationState == state && r.value.scanConsistency == Some(NotBounded)
    ensures !OneConsistency(r.value.State())
  {
    r := Query.New(Settings(Some(NotBounded), state, None, None));
  }
}
