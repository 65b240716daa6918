/** Reading the link lines of a topology into the network: every line adds a device to
    both of its nodes, and the device numbers become the interface numbers of the link. */
module Loading {
  import opened Common
  import opened Links
  import opened Routing

  datatype LinkLine = LinkLine(src: Node, dst: Node, delay: nat, bw: nat) {
    predicate Joins(a: Node, b: Node) { (a == src && b == dst) || (a == dst && b == src) }
  }

  /** How many line ends are at a node. */
  ghost function Ends(lines: seq<LinkLine>, v: Node): nat {
    if lines == [] then 0
    else
      var last := lines[|lines| - 1];
      Ends(lines[..|lines| - 1], v) + (if last.src == v then 1 else 0) + (if last.dst == v then 1 else 0)
  }

  /** The last line between two nodes, in either direction. */
  ghost function LastLine(lines: seq<LinkLine>, a: Node, b: Node): (r: Option<nat>)
    ensures r.Some? ==> r.value < |lines| && lines[r.value].Joins(a, b)
  {
    if lines == [] then None
    else if lines[|lines| - 1].Joins(a, b) then Some(|lines| - 1)
    else LastLine(lines[..|lines| - 1], a, b)
  }

  lemma {:induction false} LastLineExists(lines: seq<LinkLine>, a: Node, b: Node)
    ensures LastLine(lines, a, b).Some? <==> exists i :: 0 <= i < |lines| && lines[i].Joins(a, b)
    ensures LastLine(lines, a, b) == LastLine(lines, b, a)
  {
    if lines == [] {
    } else {
      var init, last := lines[..|lines| - 1], lines[|lines| - 1];
      LastLineExists(init, a, b);
      if i :| 0 <= i < |lines| && lines[i].Joins(a, b) {
        assert i < |init| ==> init[i].Joins(a, b);
      }
    }
  }

  /** The interface from `a` to `b`: that of the last line between them, up, and numbered by
      the devices `a` had then. Without a line there is none. */
  ghost predicate FaceFrom(links: LinkMap, lines: seq<LinkLine>, a: Node, b: Node) {
    match LastLine(lines, a, b)
    case None => b !in Neighbours(links, a)
    case Some(i) =>
      && b in Neighbours(links, a)
      && Neighbours(links, a)[b] == Interface(Ends(lines[..i + 1], a), true, lines[i].delay, lines[i].bw)
  }

  /** The link map holds exactly what the lines say. */
  ghost predicate LoadedFrom(links: LinkMap, lines: seq<LinkLine>) {
    forall a, b {:trigger FaceFrom(links, lines, a, b)} :: FaceFrom(links, lines, a, b)
  }

  lemma {:induction false} EndsMonotone(lines: seq<LinkLine>, i: nat, j: nat, v: Node)
    requires i <= j <= |lines|
    ensures Ends(lines[..i], v) <= Ends(lines[..j], v)
    decreases j
  {
    if i == j {
    } else {
      EndsMonotone(lines, i, j - 1, v);
      assert lines[..j][..j - 1] == lines[..j - 1];
    }
  }

  lemma {:induction false} EndsGrow(lines: seq<LinkLine>, i: nat, j: nat, v: Node)
    requires i < j < |lines| && (lines[j].src == v || lines[j].dst == v)
    ensures Ends(lines[..i + 1], v) < Ends(lines[..j + 1], v)
    decreases j
  {
    EndsMonotone(lines, i + 1, j, v);
    assert lines[..j + 1][..j] == lines[..j];
  }

  /** The lines among the first `n` that start at a node, or those that end at it. */
  ghost function EndingAt(lines: seq<LinkLine>, n: nat, v: Node, source: bool): set<nat>
    requires n <= |lines|
  {
    set i: nat | i < n && (if source then lines[i].src else lines[i].dst) == v
  }

  lemma OneMoreEnd(lines: seq<LinkLine>, n: nat, v: Node, source: bool)
    requires 0 < n <= |lines|
    ensures |EndingAt(lines, n, v, source)| == |EndingAt(lines, n - 1, v, source)|
              + if (if source then lines[n - 1].src else lines[n - 1].dst) == v then 1 else 0
  {
    var before, all := EndingAt(lines, n - 1, v, source), EndingAt(lines, n, v, source);
    if (if source then lines[n - 1].src else lines[n - 1].dst) == v {
      assert all == before + {n - 1};
    } else {
      assert all == before;
    }
  }

  lemma {:induction false} EndsCounted(lines: seq<LinkLine>, n: nat, v: Node)
    requires n <= |lines|
    ensures Ends(lines[..n], v) == |EndingAt(lines, n, v, true)| + |EndingAt(lines, n, v, false)|
    decreases n
  {
    if n == 0 {
    } else {
      EndsCounted(lines, n - 1, v);
      assert lines[..n][..n - 1] == lines[..n - 1];
      OneMoreEnd(lines, n, v, true);
      OneMoreEnd(lines, n, v, false);
    }
  }

  lemma {:induction false} LastLineIsLast(lines: seq<LinkLine>, a: Node, b: Node, i: nat)
    requires i < |lines| && lines[i].Joins(a, b) && forall j :: i < j < |lines| ==> !lines[j].Joins(a, b)
    ensures LastLine(lines, a, b) == Some(i)
  {
    if i == |lines| - 1 {
    } else {
      var init := lines[..|lines| - 1];
      assert forall j :: i < j < |init| ==> init[j] == lines[j];
      LastLineIsLast(init, a, b, i);
    }
  }

  /** The interface of a loaded link, in plain numbers: where line `i` is the last one between two
      nodes, it gives the rate and the delay, and the interface at either node is numbered by the
      lines up to it that the node is an end of, the first one being number 1. */
  lemma LoadedFace(links: LinkMap, lines: seq<LinkLine>, i: nat, a: Node, b: Node)
    requires LoadedFrom(links, lines) && i < |lines| && lines[i].Joins(a, b)
    requires forall j :: i < j < |lines| ==> !lines[j].Joins(a, b)
    ensures b in Neighbours(links, a) && links[a][b].up
    ensures links[a][b].delay == lines[i].delay && links[a][b].bw == lines[i].bw
    ensures links[a][b].idx == |EndingAt(lines, i + 1, a, true)| + |EndingAt(lines, i + 1, a, false)|
  {
    assert FaceFrom(links, lines, a, b);
    LastLineExists(lines, a, b);
    LastLineIsLast(lines, a, b, i);
    EndsCounted(lines, i + 1, a);
  }

  /** A node's interfaces to different neighbours have different numbers. */
  lemma LoadedFacesDistinct(links: LinkMap, lines: seq<LinkLine>)
    requires LoadedFrom(links, lines)
    ensures FacesDistinct(links)
  {
    forall v, a, b | a in Neighbours(links, v) && b in Neighbours(links, v) && a != b
      ensures Neighbours(links, v)[a].idx != Neighbours(links, v)[b].idx
    {
      assert FaceFrom(links, lines, v, a) && FaceFrom(links, lines, v, b);
      var i, j := LastLine(lines, v, a).value, LastLine(lines, v, b).value;
      if i < j {
        EndsGrow(lines, i, j, v);
      } else {
        EndsGrow(lines, j, i, v);
      }
    }
  }

  /** Up links are exactly the pairs that some line joins. */
  lemma LoadedUpLinks(links: LinkMap, lines: seq<LinkLine>, a: Node, b: Node)
    requires LoadedFrom(links, lines)
    ensures UpLink(links, a, b) <==> exists i :: 0 <= i < |lines| && lines[i].Joins(a, b)
  {
    assert FaceFrom(links, lines, a, b);
    LastLineExists(lines, a, b);
  }

  /** A further line replaces the interfaces between its two nodes, and no others. */
  lemma LoadedNext(before: LinkMap, lines: seq<LinkLine>, line: LinkLine, links: LinkMap)
    requires LoadedFrom(before, lines)
    requires forall x, y :: !line.Joins(x, y) ==>
               && (y in Neighbours(links, x) <==> y in Neighbours(before, x))
               && (y in Neighbours(links, x) ==> Neighbours(links, x)[y] == Neighbours(before, x)[y])
    requires forall x, y :: line.Joins(x, y) ==>
               && y in Neighbours(links, x)
               && Neighbours(links, x)[y] == Interface(Ends(lines + [line], x), true, line.delay, line.bw)
    ensures LoadedFrom(links, lines + [line])
  {
    var more := lines + [line];
    assert more[..|more| - 1] == lines && more[..|more|] == more;
    forall a, b ensures FaceFrom(links, more, a, b) {
      assert FaceFrom(before, lines, a, b);
      if !line.Joins(a, b) && LastLine(lines, a, b).Some? {
        var i := LastLine(lines, a, b).value;
        assert more[..i + 1] == lines[..i + 1];
      }
    }
  }

  /** A node starts with its loopback device, number 0. */
  function DeviceCount(devices: map<Node, nat>, v: Node): nat {
    if v in devices then devices[v] else 1
  }

  ghost predicate Counted(devices: map<Node, nat>, lines: seq<LinkLine>) {
    forall v :: DeviceCount(devices, v) == 1 + Ends(lines, v)
  }

  lemma CountedNext(before: map<Node, nat>, lines: seq<LinkLine>, line: LinkLine, devices: map<Node, nat>)
    requires Counted(before, lines)
    requires forall v :: DeviceCount(devices, v) ==
               DeviceCount(before, v) + (if line.src == v then 1 else 0) + (if line.dst == v then 1 else 0)
    ensures Counted(devices, lines + [line])
    ensures forall v :: Ends(lines + [line], v) ==
              Ends(lines, v) + (if line.src == v then 1 else 0) + (if line.dst == v then 1 else 0)
  {
    assert (lines + [line])[..|lines|] == lines;
  }

  /** One line: a new device on either node, and the link between them. */
  method LoadLine(net: Network, before: map<Node, nat>, line: LinkLine, ghost lines: seq<LinkLine>)
      returns (devices: map<Node, nat>)
    requires net.Valid() && LoadedFrom(net.links, lines) && Counted(before, lines) && line.bw > 0
    modifies net`links
    ensures net.Valid() && LoadedFrom(net.links, lines + [line]) && Counted(devices, lines + [line])
  {
    ghost var was := net.links;
    var srcIdx := DeviceCount(before, line.src);
    devices := before[line.src := srcIdx + 1];
    var dstIdx := DeviceCount(devices, line.dst);
    devices := devices[line.dst := dstIdx + 1];
    CountedNext(before, lines, line, devices);
    net.AddLink(line.src, line.dst, srcIdx, dstIdx, line.delay, line.bw);
    LoadedNext(was, lines, line, net.links);
  }

  /** Enter the link lines one by one. */
  method LoadLinks(net: Network, lines: seq<LinkLine>)
    requires net.Valid() && net.links == map[] && forall i :: 0 <= i < |lines| ==> lines[i].bw > 0
    modifies net`links
    ensures net.Valid() && LoadedFrom(net.links, lines)
  {
    var devices: map<Node, nat> := map[];
    for i := 0 to |lines|
      invariant net.Valid() && LoadedFrom(net.links, lines[..i]) && Counted(devices, lines[..i])
    {
      assert lines[..i + 1] == lines[..i] + [lines[i]];
      devices := LoadLine(net, devices, lines[i], lines[..i]);
    }
    assert lines[..|lines|] == lines;
  }
}
