/** The mutation tokens of lib/couchbase/mutation_state.rb. */
module MutationStates {
  import opened Sequences
  import opened Unique

  /** Tokens are objects; Ruby compares them by identity. */
  class MutationToken {
    var partitionId: int
    var partitionUuid: int
    var sequenceNumber: int
    var bucketName: string

    constructor (partitionId: int, partitionUuid: int, sequenceNumber: int, bucketName: string)
      ensures Data() == TokenData(bucketName, partitionId, partitionUuid, sequenceNumber)
    {
      this.partitionId, this.partitionUuid := partitionId, partitionUuid;
      this.sequenceNumber, this.bucketName := sequenceNumber, bucketName;
    }

    function Data(): TokenData
      reads this
    {
      TokenData(bucketName, partitionId, partitionUuid, sequenceNumber)
    }
  }

  datatype TokenData = TokenData(bucketName: string, partitionId: int, partitionUuid: int, sequenceNumber: int)

  class MutationState {
    var tokens: seq<MutationToken>

    /** `initialize`: no token survives twice. */
    constructor (mutationTokens: seq<MutationToken>)
      ensures tokens == Uniq(mutationTokens)
    {
      tokens := [];
      new;
      Add(mutationTokens);
      assert [] + mutationTokens == mutationTokens;
    }

    /** `add`. */
    method Add(mutationTokens: seq<MutationToken>)
      modifies this
      ensures tokens == Union(old(tokens), mutationTokens)
    {
      tokens := Union(tokens, mutationTokens);
    }

    /** `to_a`: one record per token, in order. */
    function ToA(): (r: seq<TokenData>)
      reads this, tokens
      ensures |r| == |tokens|
      ensures forall i :: 0 <= i < |r| ==> r[i] == tokens[i].Data()
    {
      seq(|tokens|, i requires 0 <= i < |tokens| reads this, tokens => tokens[i].Data())
    }
  }

  /** A run of `add` calls on a state: the tokens, and what is exported, are those of a single `add` of all of them, in the
      same order of first appearance. */
  method AddRun(state: MutationState, batches: seq<seq<MutationToken>>)
    requires NoDuplicates(state.tokens) || batches != []
    modifies state
    ensures state.tokens == Union(old(state.tokens), Concat(batches))
    ensures var all := Union(old(state.tokens), Concat(batches));
            |state.ToA()| == |all| && forall i :: 0 <= i < |all| ==> state.ToA()[i] == all[i].Data()
  {
    hide Union, NoDuplicates;
    ghost var start := state.tokens;
    assert batches[0..] == batches;
    for i := 0 to |batches|
      invariant UnionAll(state.tokens, batches[i..]) == UnionAll(start, batches)
    {
      assert batches[i..][1..] == batches[i + 1..];
      state.Add(batches[i]);
    }
    UnionRun(start, batches);
  }
}
