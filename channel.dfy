/**
  * The memory-mapped file `pyboof.mmap_file`: a fixed-size byte region of
  * `pyboof.mmap_size` bytes with one file cursor, used through `seek`,
  * `write` and `read` exactly as Python's `mmap` object does.
  */
module Channel {
  import opened Outcomes
  import opened Wire

  function Min(a: int, b: int): (r: int)
  {
    if a <= b then a else b
  }

  /** The region after `msg` has been written at offset 0 of `base`. */
  function Overlay(base: seq<byte>, msg: seq<byte>): (r: seq<byte>)
    requires |msg| <= |base|
    ensures |r| == |base|
    ensures r[..|msg|] == msg && r[|msg|..] == base[|msg|..]
  {
    msg + base[|msg|..]
  }

  /** Writing `more` right after a message at offset 0 extends that message. */
  lemma OverlayExtend(base: seq<byte>, msg: seq<byte>, more: seq<byte>)
    requires |msg| + |more| <= |base|
    ensures var o := Overlay(base, msg);
      o[..|msg|] + more + o[|msg| + |more|..] == Overlay(base, msg + more)
  {
  }

  class MmapFile {
    const data: array<byte>
    var pos: nat

    ghost predicate Valid()
      reads this
    {
      pos <= data.Length
    }

    constructor (size: nat)
      ensures Valid() && fresh(data) && data.Length == size && pos == 0
      ensures forall i :: 0 <= i < size ==> data[i] == 0
    {
      data := new byte[size](_ => 0);
      pos := 0;
    }

    /** mm.seek(p); Python refuses a position past the end of the region. */
    method Seek(p: nat)
      requires p <= data.Length
      modifies this
      ensures Valid() && pos == p
    {
      pos := p;
    }

    /**
      * mm.write(bytes): copies at the cursor and advances it. Data that would
      * run past the end of the region raises ValueError and nothing is written.
      */
    method Write(bytes: seq<byte>) returns (r: Outcome)
      requires Valid()
      modifies this, data
      ensures Valid()
      ensures old(pos) + |bytes| > data.Length ==>
        r == Failure(ValueError) && pos == old(pos) && data[..] == old(data[..])
      ensures old(pos) + |bytes| <= data.Length ==>
        r == Success && pos == old(pos) + |bytes| &&
        data[..] == old(data[..pos]) + bytes + old(data[pos + |bytes|..])
    {
      if pos + |bytes| > data.Length {
        return Failure(ValueError);
      }
      forall i | 0 <= i < |bytes| {
        data[pos + i] := bytes[i];
      }
      pos := pos + |bytes|;
      return Success;
    }

    /** mm.read(n): up to `n` bytes from the cursor, fewer at the end of the region. */
    method Read(n: nat) returns (bytes: seq<byte>)
      requires Valid()
      modifies this
      ensures Valid() && pos == Min(old(pos) + n, data.Length) && data[..] == old(data[..])
      ensures bytes == data[..][old(pos)..pos]
    {
      var end := Min(pos + n, data.Length);
      bytes := data[pos..end];
      pos := end;
    }
  }
}
