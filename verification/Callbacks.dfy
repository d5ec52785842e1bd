/** The caller's callbacks: a source and a sink that move any part of what they are asked for. */
module Callbacks {
  import opened Bytes

  /** How many of `len` bytes a callback is willing to move, by its plan. */
  function Moved(plan: seq<int>, len: nat): (n: nat)
    ensures n <= len
  {
    if plan == [] || plan[0] < 0 then 0 else if plan[0] < len then plan[0] else len
  }

  /** How much a source that has `left` bytes gives when asked for `len`. */
  function Offer(plan: seq<int>, len: nat, left: nat): nat {
    if Moved(plan, len) < left then Moved(plan, len) else left
  }

  function NextPlan(plan: seq<int>): seq<int> { if plan == [] then [] else plan[1..] }

  /** The caller's read callback: `rest` is what it has still to give, `plan` what each call
      is willing to return. */
  class ByteSource {
    var rest: bytes
    var plan: seq<int>

    constructor (rest: bytes, plan: seq<int>)
      ensures this.rest == rest && this.plan == plan
    {
      this.rest, this.plan := rest, plan;
    }

    method Pull(len: nat) returns (ret: int, data: bytes)
      modifies this
      ensures -1 <= ret <= len && |data| == (if ret < 1 then 0 else ret)
      ensures ret == -1 <==> old(plan) != [] && old(plan)[0] < 0
      ensures old(rest) == data + rest
      ensures |data| == Offer(old(plan), len, |old(rest)|) && plan == NextPlan(old(plan))
    {
      if plan == [] { return 0, []; }
      var p := plan[0];
      plan := plan[1..];
      if p < 0 { return -1, []; }
      var n := if p < len then p else len;
      n := if n < |rest| then n else |rest|;
      data := rest[..n];
      rest := rest[n..];
      ret := n;
    }
  }

  /** The caller's write callback: `plan` is how much each call is willing to take. */
  class ByteSink {
    var written: bytes
    var plan: seq<int>

    constructor (plan: seq<int>)
      ensures written == [] && this.plan == plan
    {
      written, this.plan := [], plan;
    }

    method Push(data: bytes) returns (ret: int)
      modifies this
      ensures -1 <= ret <= |data| && Moved(old(plan), |data|) == if ret < 1 then 0 else ret
      ensures written == old(written) + data[..Moved(old(plan), |data|)] && plan == NextPlan(old(plan))
    {
      assert data[..0] == [];
      if plan == [] { return 0; }
      var p := plan[0];
      plan := plan[1..];
      if p < 0 { return -1; }
      ret := if p < |data| then p else |data|;
      written := written + data[..ret];
    }
  }
}
