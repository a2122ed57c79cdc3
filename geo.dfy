/**
  * The list conversions of `pyboof/geo.py`: the four `mmap_list_*` functions,
  * each the chunked transfer of module Transfer with its own record layout
  * and type tag, and the `p2b_list_*` / `b2p_list_*` entry points that refuse
  * to run without a memory-mapped file.
  */
module Geo {
  import opened Outcomes
  import opened Wire
  import opened Channel
  import opened Transfer

  /**
    * The two members of `pyboof.MmapType` used here. Their numeric values
    * are defined outside `pyboof/geo.py`, so they are parameters.
    */
  datatype MmapType = MmapType(listPoint2DF64: U16, listAssociatedPairF64: U16)

  // ================================================================ mmap_list_*

  /** mmap_list_python_to_AssociatedPair: `>4d` records of 32 bytes, tagged LIST_ASSOCIATEDPAIR_F64. */
  method ListPythonToAssociatedPair(mm: MmapFile, peer: Peer, types: MmapType, pylist: seq<PairTuple>)
    returns (r: Outcome)
    requires mm.Valid() && SendTerminates(|pylist|, mm.data.Length, PAIR_SIZE)
    modifies mm, mm.data, peer
    ensures mm.Valid() && PairCodec().Valid() && PairCodec().size == PAIR_SIZE
    ensures SendPost(old(mm.data[..]), old(mm.pos), old(peer.seen), mm.data[..], mm.pos, peer.seen,
                     pylist, types.listAssociatedPairF64, PairCodec(), r)
  {
    PairCodecValid();
    r := SendList(mm, peer, pylist, types.listAssociatedPairF64, PairCodec());
  }

  /** mmap_list_AssociatedPair_to_python: appends ((x0,y0),(x1,y1)) per record to `pylist`. */
  method ListAssociatedPairToPython(mm: MmapFile, peer: Peer, types: MmapType, javaList: RemoteList, pylist: PyList<PairTuple>)
    returns (r: Outcome)
    requires mm.Valid() && RemoteFits(javaList, mm.data.Length) && Progress(javaList, types.listAssociatedPairF64)
    modifies mm, mm.data, pylist
    ensures mm.Valid() && PairCodec().Valid()
    ensures var run := RecvLoop(RecvState(old(mm.data[..]), old(mm.pos), old(pylist.items)), javaList,
                                types.listAssociatedPairF64, PairCodec(), 0);
      r == run.outcome && mm.data[..] == run.st.buf && mm.pos == run.st.pos && pylist.items == run.st.appended
  {
    PairCodecValid();
    r := ReceiveList(mm, peer, javaList, types.listAssociatedPairF64, PairCodec(), pylist);
  }

  /** mmap_list_python_to_Point2DF64: `>2d` records of 16 bytes, tagged LIST_POINT2D_F64. */
  method ListPythonToPoint2DF64(mm: MmapFile, peer: Peer, types: MmapType, pylist: seq<PointTuple>)
    returns (r: Outcome)
    requires mm.Valid() && SendTerminates(|pylist|, mm.data.Length, POINT_SIZE)
    modifies mm, mm.data, peer
    ensures mm.Valid() && PointCodec().Valid() && PointCodec().size == POINT_SIZE
    ensures SendPost(old(mm.data[..]), old(mm.pos), old(peer.seen), mm.data[..], mm.pos, peer.seen,
                     pylist, types.listPoint2DF64, PointCodec(), r)
  {
    PointCodecValid();
    r := SendList(mm, peer, pylist, types.listPoint2DF64, PointCodec());
  }

  /** mmap_list_Point2DF64_to_python: appends (x,y) per record to `pylist`. */
  method ListPoint2DF64ToPython(mm: MmapFile, peer: Peer, types: MmapType, javaList: RemoteList, pylist: PyList<PointTuple>)
    returns (r: Outcome)
    requires mm.Valid() && RemoteFits(javaList, mm.data.Length) && Progress(javaList, types.listPoint2DF64)
    modifies mm, mm.data, pylist
    ensures mm.Valid() && PointCodec().Valid()
    ensures var run := RecvLoop(RecvState(old(mm.data[..]), old(mm.pos), old(pylist.items)), javaList,
                                types.listPoint2DF64, PointCodec(), 0);
      r == run.outcome && mm.data[..] == run.st.buf && mm.pos == run.st.pos && pylist.items == run.st.appended
  {
    PointCodecValid();
    r := ReceiveList(mm, peer, javaList, types.listPoint2DF64, PointCodec(), pylist);
  }

  // ================================================================ p2b_list_* / b2p_list_*

  /**
    * `if pyboof.mmap_file:` holds when the file is set and, since an mmap
    * object has a length, when it is not empty.
    */
  predicate MmapEnabled(mmapFile: MmapFile?)
  {
    mmapFile != null && mmapFile.data.Length > 0
  }

  /** p2b_list_AssociatedPair: sends through the memory-mapped file, or raises when there is none. */
  method P2bListAssociatedPair(mmapFile: MmapFile?, peer: Peer, types: MmapType, pylist: seq<PairTuple>)
    returns (r: Outcome)
    requires MmapEnabled(mmapFile) ==>
      mmapFile.Valid() && SendTerminates(|pylist|, mmapFile.data.Length, PAIR_SIZE)
    modifies mmapFile, peer, if mmapFile == null then {} else {mmapFile.data}
    ensures !MmapEnabled(mmapFile) ==> r == Failure(NotImplemented) && peer.seen == old(peer.seen)
    ensures !MmapEnabled(mmapFile) && mmapFile != null ==>
      mmapFile.pos == old(mmapFile.pos) && mmapFile.data[..] == old(mmapFile.data[..])
    ensures MmapEnabled(mmapFile) ==> (mmapFile.Valid() && PairCodec().Valid() &&
      SendPost(old(mmapFile.data[..]), old(mmapFile.pos), old(peer.seen), mmapFile.data[..], mmapFile.pos,
               peer.seen, pylist, types.listAssociatedPairF64, PairCodec(), r))
  {
    if !MmapEnabled(mmapFile) {
      return Failure(NotImplemented);
    }
    r := ListPythonToAssociatedPair(mmapFile, peer, types, pylist);
  }

  /** b2p_list_AssociatedPair: a fresh Python list filled from the Java list, or the exception raised. */
  method B2pListAssociatedPair(mmapFile: MmapFile?, peer: Peer, types: MmapType, boofList: RemoteList)
    returns (r: Result<seq<PairTuple>>)
    requires MmapEnabled(mmapFile) ==>
      mmapFile.Valid() && RemoteFits(boofList, mmapFile.data.Length) && Progress(boofList, types.listAssociatedPairF64)
    modifies mmapFile, if mmapFile == null then {} else {mmapFile.data}
    ensures !MmapEnabled(mmapFile) ==> r == Err(NotImplemented)
    ensures !MmapEnabled(mmapFile) && mmapFile != null ==>
      mmapFile.pos == old(mmapFile.pos) && mmapFile.data[..] == old(mmapFile.data[..])
    ensures MmapEnabled(mmapFile) ==> (mmapFile.Valid() && PairCodec().Valid() &&
      var run := RecvLoop(RecvState(old(mmapFile.data[..]), old(mmapFile.pos), []), boofList,
                          types.listAssociatedPairF64, PairCodec(), 0);
      mmapFile.data[..] == run.st.buf && mmapFile.pos == run.st.pos &&
      r == if run.outcome.Success? then Ok(run.st.appended) else Err(run.outcome.error))
  {
    if !MmapEnabled(mmapFile) {
      return Err(NotImplemented);
    }
    var pylist := new PyList<PairTuple>();
    var o := ListAssociatedPairToPython(mmapFile, peer, types, boofList, pylist);
    if o.Failure? {
      return Err(o.error);
    }
    return Ok(pylist.items);
  }

  /** p2b_list_point2DF64: sends through the memory-mapped file, or raises when there is none. */
  method P2bListPoint2DF64(mmapFile: MmapFile?, peer: Peer, types: MmapType, pylist: seq<PointTuple>)
    returns (r: Outcome)
    requires MmapEnabled(mmapFile) ==>
      mmapFile.Valid() && SendTerminates(|pylist|, mmapFile.data.Length, POINT_SIZE)
    modifies mmapFile, peer, if mmapFile == null then {} else {mmapFile.data}
    ensures !MmapEnabled(mmapFile) ==> r == Failure(NotImplemented) && peer.seen == old(peer.seen)
    ensures !MmapEnabled(mmapFile) && mmapFile != null ==>
      mmapFile.pos == old(mmapFile.pos) && mmapFile.data[..] == old(mmapFile.data[..])
    ensures MmapEnabled(mmapFile) ==> (mmapFile.Valid() && PointCodec().Valid() &&
      SendPost(old(mmapFile.data[..]), old(mmapFile.pos), old(peer.seen), mmapFile.data[..], mmapFile.pos,
               peer.seen, pylist, types.listPoint2DF64, PointCodec(), r))
  {
    if !MmapEnabled(mmapFile) {
      return Failure(NotImplemented);
    }
    r := ListPythonToPoint2DF64(mmapFile, peer, types, pylist);
  }

  /** b2p_list_point2DF64: a fresh Python list filled from the Java list, or the exception raised. */
  method B2pListPoint2DF64(mmapFile: MmapFile?, peer: Peer, types: MmapType, boofList: RemoteList)
    returns (r: Result<seq<PointTuple>>)
    requires MmapEnabled(mmapFile) ==>
      mmapFile.Valid() && RemoteFits(boofList, mmapFile.data.Length) && Progress(boofList, types.listPoint2DF64)
    modifies mmapFile, if mmapFile == null then {} else {mmapFile.data}
    ensures !MmapEnabled(mmapFile) ==> r == Err(NotImplemented)
    ensures !MmapEnabled(mmapFile) && mmapFile != null ==>
      mmapFile.pos == old(mmapFile.pos) && mmapFile.data[..] == old(mmapFile.data[..])
    ensures MmapEnabled(mmapFile) ==> (mmapFile.Valid() && PointCodec().Valid() &&
      var run := RecvLoop(RecvState(old(mmapFile.data[..]), old(mmapFile.pos), []), boofList,
                          types.listPoint2DF64, PointCodec(), 0);
      mmapFile.data[..] == run.st.buf && mmapFile.pos == run.st.pos &&
      r == if run.outcome.Success? then Ok(run.st.appended) else Err(run.outcome.error))
  {
    if !MmapEnabled(mmapFile) {
      return Err(NotImplemented);
    }
    var pylist := new PyList<PointTuple>();
    var o := ListPoint2DF64ToPython(mmapFile, peer, types, boofList, pylist);
    if o.Failure? {
      return Err(o.error);
    }
    return Ok(pylist.items);
  }
}
