/** The reused synthesis context, its node store, and the per-channel
    pipeline of `read_csv` (src/main.cpp:64-135). */
module NodeStore {
  import opened Values
  import opened NodeParser

  /** The filter synthesiser: JamesDSP's NodesSorter followed by GetFilter,
      taken together as an opaque function of the stored node list and the
      sample rate. It returns the buffer the filter kernel is read from. */
  type Synth = (seq<EqNode>, nat) -> seq<Float32>

  /** The synthesiser's buffer always holds at least `filterLen` samples,
      which is what reading `filterLen` samples from it relies on. */
  ghost predicate KernelFits(synth: Synth, filterLen: nat) {
    forall nodes, fs :: filterLen <= |synth(nodes, fs)|
  }

  /** The JamesDSP instance, reduced to what `read_csv` touches: the node
      array and node count of its arbitrary-response coefficient generator
      (`arbMag.coeffGen`), the sample rate `fs` and the filter length
      `arbMag.filterLen`. Both are taken as fixed at initialisation: the
      source re-reads the filter length after each synthesis, and the model
      assumes synthesis leaves it unchanged. The stored node order is the
      order before JamesDSP's in-place sort, which is folded into `Synth`. */
  class JamesDsp {
    var nodes: array?<EqNode>
    var nodesCount: nat
    const fs: nat
    const filterLen: nat

    /** The count handed to the synthesiser never diverges from the array. */
    ghost predicate Valid()
      reads this
    {
      if nodes == null then nodesCount == 0 else nodesCount == nodes.Length
    }

    /** The stored node list. */
    function Nodes(): (r: seq<EqNode>)
      requires Valid()
      reads this, nodes
      ensures |r| == nodesCount
    {
      if nodes == null then [] else nodes[..]
    }

    /** A freshly initialised instance holds no nodes. */
    constructor (fs: nat, filterLen: nat)
      ensures Valid() && nodes == null && Nodes() == []
      ensures this.fs == fs && this.filterLen == filterLen
    {
      this.fs := fs;
      this.filterLen := filterLen;
      nodes := null;
      nodesCount := 0;
    }

    /** `EqNodesFree`: releases the stored nodes. */
    method FreeNodes()
      requires Valid()
      modifies this
      ensures Valid() && nodes == null && Nodes() == []
    {
      nodes := null;
      nodesCount := 0;
    }

    /** Node store replacement (lines 110-125): any stored nodes are released,
        a fresh array of |v| nodes is filled with the frequency and gain of
        each node of `v` in turn, and the count is set to match. */
    method ReplaceNodes(v: seq<EqNode>)
      requires Valid()
      modifies this
      ensures Valid() && fresh(nodes)
      ensures nodesCount == |v| && Nodes() == v
    {
      if nodes != null {
        FreeNodes();
      }
      var copy := new EqNode[|v|];
      for i := 0 to |v|
        invariant forall k :: 0 <= k < i ==> copy[k] == v[k]
      {
        copy[i] := EqNode(v[i].freq, v[i].gain);
      }
      nodesCount := |v|;
      nodes := copy;
    }
  }

  /** What one channel yields: the node list the reader builds from the rows,
      synthesised at `fs` and cut to `filterLen` samples, or None when the file
      cannot be read or the rows are refused. */
  function ChannelFrames(csv: Option<seq<Row>>, parse: Parser, synth: Synth, fs: nat, filterLen: nat)
    : (r: Option<seq<Float32>>)
    requires KernelFits(synth, filterLen)
    ensures r.Some? <==> csv.Some? && |csv.value| >= 2
    ensures r.Some? ==> |r.value| == filterLen
  {
    match csv
    case None => None
    case Some(rows) =>
      match ReadCsvNodes(rows, parse)
      case Failure(_) => None
      case Success(nodes) => Some(synth(nodes, fs)[..filterLen])
  }

  /** `read_csv`: reads the rows (None when the file cannot be read), builds
      the node list, replaces the context's nodes with it, and replaces the
      contents of `frames` with the first `filterLen` samples of the filter.
      On failure neither the context nor `frames` is touched. */
  method ReadCsv(frames: seq<Float32>, csv: Option<seq<Row>>, parse: Parser, jdsp: JamesDsp, synth: Synth)
    returns (ok: bool, framesOut: seq<Float32>)
    requires jdsp.Valid() && KernelFits(synth, jdsp.filterLen)
    modifies jdsp
    ensures jdsp.Valid()
    ensures ok <==> ChannelFrames(csv, parse, synth, jdsp.fs, jdsp.filterLen).Some?
    ensures ok ==> framesOut == ChannelFrames(csv, parse, synth, jdsp.fs, jdsp.filterLen).value
    ensures ok ==> fresh(jdsp.nodes) && jdsp.Nodes() == ReadCsvNodes(csv.value, parse).value
    ensures !ok ==> framesOut == frames
    ensures !ok ==> jdsp.nodes == old(jdsp.nodes) && jdsp.nodesCount == old(jdsp.nodesCount)
  {
    if csv.None? {
      return false, frames;
    }
    var built := BuildNodes(csv.value, parse);
    if built.Failure? {
      return false, frames;
    }
    jdsp.ReplaceNodes(built.value);
    var eqFil := synth(jdsp.Nodes(), jdsp.fs);
    var n := jdsp.filterLen;
    framesOut := [];
    framesOut := framesOut + eqFil[..n];
    return true, framesOut;
  }
}
