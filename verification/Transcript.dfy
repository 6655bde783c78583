/** The running transcript hash: src/handshake/transcript.c. */
module Transcript {
  import opened Machine
  import opened ByteOps
  import opened Sha256

  class Transcript {
    const ctx: Context

    ghost predicate Valid()
      reads this, ctx, ctx.buf
    {
      ctx.Valid()
    }

    constructor (compress: Compression)
      ensures Valid() && fresh(ctx) && fresh(ctx.buf) && ctx.compress == compress && ctx.msg == []
    {
      ctx := new Context(compress);
    }

    method Add(msg: Bytes)
      requires Valid()
      modifies ctx, ctx.buf
      ensures Valid() && ctx.msg == old(ctx.msg) + msg
    {
      ctx.Update(msg);
    }

    /** Finishes a private copy: nothing of the transcript changes. */
    method Snapshot() returns (hash: Bytes)
      requires Valid()
      ensures hash == Digest(ctx.compress, ctx.msg)
    {
      var copy := new Context.Copy(ctx);
      hash := copy.Final();
    }
  }

  /** A session that takes a snapshot after every message: each one is the hash of everything
      added so far, whatever snapshots were taken before it. */
  method Session(compress: Compression, msgs: seq<Bytes>) returns (hashes: seq<Bytes>)
    ensures |hashes| == |msgs|
    ensures forall i :: 0 <= i < |msgs| ==> hashes[i] == Digest(compress, Flatten(msgs[..i + 1]))
  {
    hide Digest, Represents;
    var t := new Transcript(compress);
    hashes := [];
    for i := 0 to |msgs|
      invariant t.Valid() && fresh(t.ctx) && fresh(t.ctx.buf) && t.ctx.compress == compress
      invariant |hashes| == i && t.ctx.msg == Flatten(msgs[..i])
      invariant forall k :: 0 <= k < i ==> hashes[k] == Digest(compress, Flatten(msgs[..k + 1]))
    {
      t.Add(msgs[i]);
      assert msgs[..i + 1][..i] == msgs[..i];
      var hash := t.Snapshot();
      hashes := hashes + [hash];
    }
  }
}
