/** Single-producer/single-consumer byte rings: a buffer of N slots with one slot kept empty, a
    producer index `inp` and a consumer index `outp`. */
module Rings {
  import opened Basics

  /** The index arithmetic `x % N`, for an x that has gone at most once past the end. */
  function Wrap(x: nat, n: nat): (r: nat)
    requires 0 < n && x < 2 * n
    ensures r == if x < n then x else x - n
    ensures r < n
  {
    x % n
  }

  datatype Ring = Ring(buf: seq<byte>, inp: nat, outp: nat) {

    ghost predicate Ok() {
      2 <= |buf| && inp < |buf| && outp < |buf|
    }

    /** The bytes put in and not yet taken out, oldest first. */
    function Contents(): (s: seq<byte>)
      requires Ok()
      ensures |s| < |buf|
      ensures s == [] <==> inp == outp
    {
      if outp <= inp then buf[outp..inp] else buf[outp..] + buf[..inp]
    }

    predicate Full()
      requires Ok()
    {
      Wrap(inp + 1, |buf|) == outp
    }

    function Push(b: byte): (r: Ring)
      requires Ok() && !Full()
      ensures r.Ok() && |r.buf| == |buf| && r.outp == outp
      ensures r.Contents() == Contents() + [b]
    {
      Ring(buf[inp := b], Wrap(inp + 1, |buf|), outp)
    }

    function Pop(): (r: Ring)
      requires Ok() && inp != outp
      ensures r.Ok() && r.buf == buf && r.inp == inp
      ensures Contents() == [buf[outp]] + r.Contents()
    {
      Ring(buf, inp, Wrap(outp + 1, |buf|))
    }
  }

  /** How many slots a producer that saw these indices may fill without wrapping: the writer's
      three-case computation. */
  function FreeRun(inp: nat, outp: nat, len: nat): (n: nat)
    requires inp < len && outp < len && 2 <= len
    ensures inp + n <= len
    ensures n == 0 <==> Wrap(inp + 1, len) == outp
  {
    if inp < outp then outp - 1 - inp
    else if outp > 0 then len - inp
    else len - 1 - inp
  }

  /** How many slots a consumer that saw these indices may drain without wrapping. */
  function FilledRun(inp: nat, outp: nat, len: nat): (n: nat)
    requires inp < len && outp < len
    ensures outp + n <= len
    ensures n == 0 <==> inp == outp
  {
    if inp >= outp then inp - outp else len - outp
  }

  /** Both runs are as long as they can be: what there is to fill or to drain, cut off at the end of the buffer. */
  lemma RunsAreLongest(r: Ring)
    requires r.Ok()
    ensures var free, toEnd := |r.buf| - 1 - |r.Contents()|, |r.buf| - r.inp;
            FreeRun(r.inp, r.outp, |r.buf|) == if free < toEnd then free else toEnd
    ensures var filled, toEnd := |r.Contents()|, |r.buf| - r.outp;
            FilledRun(r.inp, r.outp, |r.buf|) == if filled < toEnd then filled else toEnd
  {
  }

  /** An index the producer had earlier, that the consumer has not passed. */
  ghost predicate WasInp(r: Ring, i: nat)
    requires r.Ok()
  {
    i < |r.buf| && (if r.outp <= r.inp then r.outp <= i <= r.inp else r.outp <= i || i <= r.inp)
  }

  /** Storing into a free slot does not disturb any unread byte. */
  lemma StoreFree(r: Ring, k: nat, b: byte)
    requires r.Ok() && k < FreeRun(r.inp, r.outp, |r.buf|)
    ensures r.(buf := r.buf[r.inp + k := b]).Contents() == r.Contents()
    ensures r.buf[r.inp + k := b][r.inp..r.inp + k + 1] == r.buf[r.inp..r.inp + k] + [b]
  {
    var r' := r.(buf := r.buf[r.inp + k := b]);
    assert |r'.Contents()| == |r.Contents()|;
  }

  /** Publishing n filled slots appends exactly those bytes. */
  lemma PublishRun(r: Ring, n: nat)
    requires r.Ok() && n <= FreeRun(r.inp, r.outp, |r.buf|)
    ensures r.(inp := Wrap(r.inp + n, |r.buf|)).Ok()
    ensures r.(inp := Wrap(r.inp + n, |r.buf|)).Contents() == r.Contents() + r.buf[r.inp..r.inp + n]
  {
    var r' := r.(inp := Wrap(r.inp + n, |r.buf|));
    if r.inp < r.outp {
      assert r.buf[..r.inp + n] == r.buf[..r.inp] + r.buf[r.inp..r.inp + n];
    } else if r.inp + n < |r.buf| {
      assert r.buf[r.outp..r.inp + n] == r.buf[r.outp..r.inp] + r.buf[r.inp..r.inp + n];
    } else {
      assert r.buf[r.outp..] + r.buf[..0] == r.buf[r.outp..r.inp] + r.buf[r.inp..r.inp + n];
    }
  }

  /** Releasing n slots removes exactly the n oldest bytes. */
  lemma ReleaseRun(r: Ring, n: nat)
    requires r.Ok() && n <= FilledRun(r.inp, r.outp, |r.buf|)
    ensures r.(outp := Wrap(r.outp + n, |r.buf|)).Ok()
    ensures r.Contents() == r.buf[r.outp..r.outp + n] + r.(outp := Wrap(r.outp + n, |r.buf|)).Contents()
  {
    if r.outp <= r.inp {
      assert r.buf[r.outp..r.inp] == r.buf[r.outp..r.outp + n] + r.buf[r.outp + n..r.inp];
    } else if r.outp + n < |r.buf| {
      assert r.buf[r.outp..] == r.buf[r.outp..r.outp + n] + r.buf[r.outp + n..];
    } else {
      assert r.buf[r.outp..] == r.buf[r.outp..r.outp + n];
    }
  }

  /** A push keeps everything the consumer may rely on: its run only grows, the bytes in it stay, and
      every index it may have loaded is still one. */
  lemma PushIsStable(r: Ring, b: byte)
    requires r.Ok() && !r.Full()
    ensures FilledRun(r.inp, r.outp, |r.buf|) <= FilledRun(r.Push(b).inp, r.outp, |r.buf|)
    ensures forall j :: r.outp <= j < r.outp + FilledRun(r.inp, r.outp, |r.buf|) ==> r.Push(b).buf[j] == r.buf[j]
    ensures forall i :: WasInp(r, i) ==> WasInp(r.Push(b), i)
  {
  }

  /** A pop only widens what the producer may fill. */
  lemma PopIsStable(r: Ring)
    requires r.Ok() && r.inp != r.outp
    ensures FreeRun(r.inp, r.outp, |r.buf|) <= FreeRun(r.inp, r.Pop().outp, |r.buf|)
  {
  }
}
