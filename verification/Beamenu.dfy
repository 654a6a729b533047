/** The menu table of src/aux/beamenu: its nodes, its current-node register, and the binary file they travel in. */
module Beamenu {
  import opened Bytes

  const CN_MAXLEN := 32
  const INACTIVE := 0x00
  const DEFAULT := 0xfe
  const ROOT := 0xff

  /** struct beamenu_node; `cn` is None for a null pointer. */
  datatype Node = Node(i: int, cn: Option<seq<byte>>, dst: seq<int>)

  // ---- the file format

  /** The low `width` bytes of an exit, least significant first. */
  function ExitBytes(v: int, width: nat): (s: seq<byte>)
    ensures |s| == width
    decreases width
  {
    if width == 0 then [] else [v % 256] + ExitBytes(v / 256, width - 1)
  }

  function ExitsBytes(dst: seq<int>, width: nat): seq<byte> {
    if dst == [] then [] else ExitsBytes(dst[..|dst| - 1], width) + ExitBytes(dst[|dst| - 1], width)
  }

  function NodeBytes(n: Node, width: nat): seq<byte>
    requires n.cn.Some?
  {
    n.cn.value + [0] + ExitsBytes(n.dst, width)
  }

  ghost predicate AllNamed(nodes: seq<Node>) {
    forall i :: 0 <= i < |nodes| ==> nodes[i].cn.Some?
  }

  function TableBytes(nodes: seq<Node>, width: nat): seq<byte>
    requires AllNamed(nodes)
  {
    if nodes == [] then [] else TableBytes(nodes[..|nodes| - 1], width) + NodeBytes(nodes[|nodes| - 1], width)
  }

  datatype Name = NoName | Named(cn: seq<byte>, rest: seq<byte>)

  /** Up to the NUL, which must be among the first 33 bytes (import.c:22-36); `ii` bytes are read already. */
  function ReadName(file: seq<byte>, ii: nat): (r: Name)
    ensures r.Named? ==> |r.rest| < |file|
  {
    if ii > CN_MAXLEN || file == [] then NoName
    else if file[0] == 0 then Named([], file[1..])
    else match ReadName(file[1..], ii + 1)
      case NoName => NoName
      case Named(cn, rest) => Named([file[0]] + cn, rest)
  }

  function AsInts(s: seq<byte>): (r: seq<int>)
    ensures |r| == |s|
  {
    seq(|s|, i requires 0 <= i < |s| => s[i] as int)
  }

  /** `count` nodes from index `from` on, each with `exits` one-byte exits. */
  function ReadTable(file: seq<byte>, from: nat, count: nat, exits: nat): (r: Option<seq<Node>>)
    ensures r.Some? ==> |r.value| == count
    decreases count
  {
    if count == 0 then Some([])
    else match ReadName(file, 0)
      case NoName => None
      case Named(cn, rest) =>
        if |rest| < exits then None
        else match ReadTable(rest[exits..], from + 1, count - 1, exits)
          case None => None
          case Some(more) => Some([Node(from, Some(cn), AsInts(rest[..exits]))] + more)
  }

  /** The node array after a load of `file` from slot `from` on, whether it succeeds or stops on the way: every node
      read so far is replaced, and one whose exits break off holds those there were and zeros. */
  function Reloaded(nodes: seq<Node>, file: seq<byte>, from: nat, count: nat, exits: nat): (r: seq<Node>)
    requires from + count <= |nodes|
    ensures |r| == |nodes|
    decreases count
  {
    if count == 0 then nodes
    else match ReadName(file, 0)
      case NoName => nodes
      case Named(cn, rest) =>
        if |rest| < exits then nodes[from := Node(from, Some(cn), AsInts(rest) + seq(exits - |rest|, _ => 0))]
        else
          var nodes' := nodes[from := Node(from, Some(cn), AsInts(rest[..exits]))];
          Reloaded(nodes', rest[exits..], from + 1, count - 1, exits)
  }

  /** A load that succeeds replaces exactly its window by the table; any load leaves the rest alone. */
  lemma {:induction false} ReloadedIsTable(nodes: seq<Node>, file: seq<byte>, from: nat, count: nat, exits: nat)
    requires from + count <= |nodes|
    ensures var r, t := Reloaded(nodes, file, from, count, exits), ReadTable(file, from, count, exits);
            && r[..from] == nodes[..from] && r[from + count..] == nodes[from + count..]
            && (t.Some? ==> r[from..from + count] == t.value)
    decreases count
  {
    var r := Reloaded(nodes, file, from, count, exits);
    if count > 0 && ReadName(file, 0).Named? {
      var cn, rest := ReadName(file, 0).cn, ReadName(file, 0).rest;
      if |rest| >= exits {
        var n := Node(from, Some(cn), AsInts(rest[..exits]));
        var nodes' := nodes[from := n];
        ReloadedIsTable(nodes', rest[exits..], from + 1, count - 1, exits);
        assert r[..from] == r[..from + 1][..from] && nodes'[..from] == nodes'[..from + 1][..from];
        assert r[from] == r[..from + 1][from] == n;
        assert r[from..from + count] == [n] + r[from + 1..from + 1 + (count - 1)];
      }
    }
  }

  /** Value of a little-endian octet string. */
  function LE(s: seq<byte>): nat {
    if s == [] then 0 else s[0] + 256 * LE(s[1..])
  }

  /** A width of 1, 2 or 4 keeps the exit's value up to that many octets. */
  lemma ExitBytesValue(v: int, width: nat)
    requires width in {1, 2, 4}
    ensures LE(ExitBytes(v, width))
            == v % (if width == 1 then 0x100 else if width == 2 then 0x1_0000 else 0x1_0000_0000)
  {
    hide LE, ExitBytes;
    LEOne(v);
    LETwo(v);
    LEFour(v);
  }

  lemma LEFour(v: int)
    ensures LE(ExitBytes(v, 4)) == v % 0x1_0000_0000
  {
    var b, c := v / 256, v / 256 / 256;
    assert ExitBytes(v, 4) == [v % 256] + ([b % 256] + ExitBytes(c, 2));
    hide LE, ExitBytes;
    LETwo(c);
    LEAppend(b % 256, ExitBytes(c, 2));
    LEAppend(v % 256, [b % 256] + ExitBytes(c, 2));
    FourByteStep(v);
    ThreeByteStep(b);
  }

  lemma ThreeByteStep(v: int)
    ensures v % 0x100_0000 == v % 256 + 256 * (v / 256 % 0x1_0000)
  {
    var r, q := v / 256 % 0x1_0000, v / 256 / 0x1_0000;
    assert v / 256 == r + 0x1_0000 * q;
    assert v == v % 256 + 256 * r + 0x100_0000 * q;
  }

  lemma FourByteStep(v: int)
    ensures v % 0x1_0000_0000 == v % 256 + 256 * (v / 256 % 0x100_0000)
  {
    var r, q := v / 256 % 0x100_0000, v / 256 / 0x100_0000;
    assert v / 256 == r + 0x100_0000 * q;
    assert v == v % 256 + 256 * r + 0x1_0000_0000 * q;
  }

  lemma LEAppend(b: byte, s: seq<byte>)
    ensures LE([b] + s) == b + 256 * LE(s)
  {
    assert ([b] + s)[1..] == s;
  }

  lemma LEOne(v: int)
    ensures LE(ExitBytes(v, 1)) == v % 0x100
  {
    LEAppend(v % 256, []);
    assert ExitBytes(v, 1) == [v % 256] + [];
  }

  lemma LETwo(v: int)
    ensures LE(ExitBytes(v, 2)) == v % 0x1_0000
  {
    assert ExitBytes(v, 2) == [v % 256] + ExitBytes(v / 256, 1);
    hide LE, ExitBytes;
    LEOne(v / 256);
    LEAppend(v % 256, ExitBytes(v / 256, 1));
    TwoByteStep(v);
  }

  lemma TwoByteStep(v: int)
    ensures v % 0x1_0000 == v % 256 + 256 * (v / 256 % 256)
  {
    var r, q := v / 256 % 256, v / 256 / 256;
    assert v / 256 == r + 256 * q;
    assert v == v % 256 + 256 * r + 0x1_0000 * q;
  }

  /** A name is refused when none of the first 33 octets is NUL, or the file ends before one. */
  lemma {:induction false} NameRefused(file: seq<byte>, ii: nat)
    requires ii <= CN_MAXLEN + 1
    ensures ReadName(file, ii) == NoName <==> forall k :: 0 <= k < |file| && k <= 32 - ii ==> file[k] != 0
    decreases |file|
  {
    if ii <= CN_MAXLEN && file != [] && file[0] != 0 {
      NameRefused(file[1..], ii + 1);
      assert forall k :: 1 <= k < |file| ==> file[k] == file[1..][k - 1];
      assert forall k :: 0 <= k < |file[1..]| ==> file[1..][k] == file[k + 1];
    }
  }

  /** A node whose exits break off keeps its name, the exits there were, and zeros after them; nothing after it is
      read. */
  lemma BrokenOffNode(nodes: seq<Node>, file: seq<byte>, from: nat, count: nat, exits: nat)
    requires 0 < count && from + count <= |nodes|
    requires ReadName(file, 0).Named? && |ReadName(file, 0).rest| < exits
    ensures var name, n := ReadName(file, 0), Reloaded(nodes, file, from, count, exits)[from];
            && Reloaded(nodes, file, from, count, exits) == nodes[from := n]
            && n.i == from && n.cn == Some(name.cn) && |n.dst| == exits
            && forall e :: 0 <= e < exits ==> n.dst[e] == if e < |name.rest| then name.rest[e] as int else 0
  {
    hide ReadName;
  }

  // ---- round trip

  lemma {:induction false} NameReads(cn: seq<byte>, rest: seq<byte>, ii: nat)
    requires 0 !in cn && ii + |cn| <= CN_MAXLEN
    ensures ReadName(cn + [0] + rest, ii) == Named(cn, rest)
  {
    var s := cn + [0] + rest;
    if cn == [] {
      assert s[1..] == rest;
    } else {
      assert s[1..] == cn[1..] + [0] + rest;
      NameReads(cn[1..], rest, ii + 1);
      assert cn == [cn[0]] + cn[1..];
    }
  }

  lemma {:induction false} ExitsRead(dst: seq<int>)
    requires forall e :: 0 <= e < |dst| ==> 0 <= dst[e] < 256
    ensures |ExitsBytes(dst, 1)| == |dst| && AsInts(ExitsBytes(dst, 1)) == dst
  {
    if dst != [] {
      var n := |dst| - 1;
      ExitsRead(dst[..n]);
      assert ExitBytes(dst[n], 1) == [dst[n]];
      assert AsInts(ExitsBytes(dst, 1)) == AsInts(ExitsBytes(dst[..n], 1)) + [dst[n]];
    }
  }

  /** A table the file format can carry: registered nodes, NUL-free names of at most 31 bytes, one-byte exits. */
  ghost predicate Portable(nodes: seq<Node>, from: nat, exits: nat) {
    forall i :: 0 <= i < |nodes| ==>
      && nodes[i].i == from + i && nodes[i].cn.Some? && 0 !in nodes[i].cn.value && |nodes[i].cn.value| < CN_MAXLEN
      && |nodes[i].dst| == exits
      && forall e :: 0 <= e < exits ==> 0 <= nodes[i].dst[e] < 256
  }

  lemma TableEmpty(width: nat)
    ensures TableBytes([], width) == []
  {
  }

  lemma TableStep(nodes: seq<Node>, i: nat, width: nat)
    requires i < |nodes| && AllNamed(nodes[..i]) && nodes[i].cn.Some?
    ensures AllNamed(nodes[..i + 1])
    ensures TableBytes(nodes[..i + 1], width) == TableBytes(nodes[..i], width) + NodeBytes(nodes[i], width)
  {
    hide NodeBytes;
    assert nodes[..i + 1][..i] == nodes[..i];
  }

  lemma {:induction false} TableFront(nodes: seq<Node>, width: nat)
    requires AllNamed(nodes) && nodes != []
    ensures TableBytes(nodes, width) == NodeBytes(nodes[0], width) + TableBytes(nodes[1..], width)
  {
    hide NodeBytes;
    var n := |nodes|;
    if n > 1 {
      TableFront(nodes[..n - 1], width);
      assert nodes[..n - 1][1..] == nodes[1..][..n - 2];
      var a, b, c := NodeBytes(nodes[0], width), TableBytes(nodes[1..][..n - 2], width), NodeBytes(nodes[n - 1], width);
      assert (a + b) + c == a + (b + c);
    } else {
      assert nodes[..n - 1] == [] && nodes[1..] == [];
    }
  }

  /** Menu table round trip: importing the width-1 export gives back every index, name and exit. */
  lemma {:induction false} TableRoundTrip(nodes: seq<Node>, from: nat, exits: nat, tail: seq<byte>)
    requires Portable(nodes, from, exits)
    ensures AllNamed(nodes) && ReadTable(TableBytes(nodes, 1) + tail, from, |nodes|, exits) == Some(nodes)
    decreases |nodes|
  {
    hide *;
    if nodes == [] {
      EmptyTable(from, exits, tail);
    } else {
      var n := nodes[0];
      PortableParts(nodes, from, exits);
      TableFront(nodes, 1);
      var later := TableBytes(nodes[1..], 1) + tail;
      assert TableBytes(nodes, 1) + tail == NodeBytes(n, 1) + later;
      NodeReads(n, exits, later);
      TableRoundTrip(nodes[1..], from + 1, exits, tail);
      ReadOne(NodeBytes(n, 1) + later, from, |nodes|, exits);
      assert nodes == [n] + nodes[1..];
    }
  }

  lemma EmptyTable(from: nat, exits: nat, tail: seq<byte>)
    ensures AllNamed([]) && ReadTable(TableBytes([], 1) + tail, from, 0, exits) == Some([])
  {
  }

  lemma PortableParts(nodes: seq<Node>, from: nat, exits: nat)
    requires Portable(nodes, from, exits) && nodes != []
    ensures AllNamed(nodes) && AllNamed(nodes[1..]) && Portable(nodes[1..], from + 1, exits)
    ensures var n := nodes[0];
            && n.cn.Some? && n == Node(from, Some(n.cn.value), n.dst)
            && 0 !in n.cn.value && |n.cn.value| < CN_MAXLEN && |n.dst| == exits
            && forall e :: 0 <= e < exits ==> 0 <= n.dst[e] < 256
  {
  }

  lemma ReadOne(file: seq<byte>, from: nat, count: nat, exits: nat)
    requires count > 0 && ReadName(file, 0).Named? && |ReadName(file, 0).rest| >= exits
    ensures var name := ReadName(file, 0);
            var more := ReadTable(name.rest[exits..], from + 1, count - 1, exits);
            ReadTable(file, from, count, exits)
            == if more.None? then None else Some([Node(from, Some(name.cn), AsInts(name.rest[..exits]))] + more.value)
  {
    hide ReadName, AsInts;
  }

  /** One portable node in front of anything: its name, then its exits, then the rest. */
  lemma NodeReads(n: Node, exits: nat, later: seq<byte>)
    requires n.cn.Some? && 0 !in n.cn.value && |n.cn.value| < CN_MAXLEN && |n.dst| == exits
    requires forall e :: 0 <= e < exits ==> 0 <= n.dst[e] < 256
    ensures var r := ReadName(NodeBytes(n, 1) + later, 0);
            && r.Named? && r.cn == n.cn.value && |r.rest| >= exits
            && AsInts(r.rest[..exits]) == n.dst && r.rest[exits..] == later
  {
    var rest := ExitsBytes(n.dst, 1) + later;
    ExitsRead(n.dst);
    NameReads(n.cn.value, rest, 0);
    assert NodeBytes(n, 1) + later == n.cn.value + [0] + rest;
    assert rest[..exits] == ExitsBytes(n.dst, 1) && rest[exits..] == later;
    hide ReadName, ExitsBytes, NodeBytes, AsInts;
  }

  // ---- the table object

  class Menu {
    /** BEAMENU_N_DST and BEAMENU_N_EXITS; the node array has one slot more than there are destinations. */
    const nDst: nat
    const nExits: nat
    const node: array<Node>
    var now: int

    ghost predicate Valid()
      reads this, node
    {
      node.Length == nDst + 1 && forall i :: 0 <= i < node.Length ==> |node[i].dst| == nExits
    }

    constructor (nDst: nat, nExits: nat)
      ensures Valid() && this.nDst == nDst && this.nExits == nExits && now == 0 && fresh(node)
      ensures forall i :: 0 <= i <= nDst ==> node[i] == Node(0, None, seq(nExits, _ => 0))
    {
      this.nDst, this.nExits, now := nDst, nExits, 0;
      node := new Node[nDst + 1](_ => Node(0, None, seq(nExits, _ => 0)));
    }

    /** beamenu_register (beamenu.c:11-29). */
    method Register(idx: nat, cn: seq<byte>)
      requires Valid() && idx <= nDst
      modifies node
      ensures Valid() && node[..] == old(node[..])[idx := Node(idx, Some(cn), seq(nExits, _ => 0))]
    {
      node[idx] := Node(idx, Some(cn), seq(nExits, _ => 0));
    }

    /** beamenu_set (beamenu.c:42-47). */
    method Set(idxNode: nat, idxExit: nat, idxDst: int)
      requires Valid() && idxNode <= nDst && idxExit < nExits
      modifies node
      ensures Valid()
      ensures var n := old(node[idxNode]);
              node[..] == old(node[..])[idxNode := n.(dst := n.dst[idxExit := idxDst])]
    {
      node[idxNode] := node[idxNode].(dst := node[idxNode].dst[idxExit := idxDst]);
    }

    /** beamenu_jump (beamenu.c:79-82). */
    method Jump(idx: int) returns (r: int)
      modifies this`now
      ensures now == idx == r
    {
      now := idx;
      return idx;
    }

    /** beamenu_use_exit (beamenu.c:49-82). An inactive exit is refused, the root exit leads to node 0, and any other
        value is jumped to as it stands, the "default" marker included. */
    method UseExit(idxExit: nat) returns (r: int)
      requires Valid() && 0 <= now <= nDst && (idxExit < nExits || idxExit == ROOT)
      modifies this`now
      ensures var d := if idxExit == ROOT then ROOT else node[old(now)].dst[idxExit];
              && (d == INACTIVE ==> r == -1 && now == old(now))
              && (d == ROOT ==> r == now == 0)
              && (d != INACTIVE && d != ROOT ==> r == now == d)
      ensures idxExit == 0xff ==> r == now == 0
      ensures idxExit < nExits && idxExit != 0xff && node[old(now)].dst[idxExit] == 0x00 ==> r == -1 && now == old(now)
      ensures idxExit < nExits && idxExit != 0xff && node[old(now)].dst[idxExit] == 0xff ==> r == now == 0
    {
      var idx := if idxExit == ROOT then idxExit else node[now].dst[idxExit];
      if idx == INACTIVE {
        return -1;
      }
      if idx == ROOT {
        idx := 0;
      } else if idxExit >= nExits {
        return -2;
      }
      r := Jump(idx);
    }

    /** beamenu_export (export.c:42-71): the bytes of the first nDst nodes, or nothing when a node has no
        exit bytes. */
    method Export(width: nat) returns (out: seq<byte>)
      requires Valid() && AllNamed(node[..nDst])
      ensures var w := if width == 0 then 1 else width;
              out == if w in {1, 2, 4} && nExits > 0 then TableBytes(node[..nDst], w) else []
    {
      hide NodeBytes, TableBytes;
      var w := width;
      if w == 0 {
        w := 1;
      }
      TableEmpty(w);
      assert node[..0] == [];
      out := [];
      var i := 0;
      while i < nDst
        invariant 0 <= i <= nDst
        invariant i > 0 ==> w in {1, 2, 4} && nExits > 0
        invariant out == TableBytes(node[..i], w)
      {
        var one := ExportNode(node[i], w);
        if one == [] {
          return [];
        }
        TableStep(node[..], i, w);
        assert node[..][..i] == node[..i] && node[..][..i + 1] == node[..i + 1];
        out := out + one;
        i := i + 1;
      }
    }

    /** Name, NUL and exits of one node; nothing when it has no exit bytes. */
    method ExportNode(o: Node, width: nat) returns (b: seq<byte>)
      requires width > 0 && o.cn.Some?
      ensures b == if width in {1, 2, 4} && o.dst != [] then NodeBytes(o, width) else []
      ensures b == [] <==> o.dst == [] || width !in {1, 2, 4}
    {
      var exits := ExportExits(o, width);
      if exits == [] {
        return [];
      }
      return o.cn.value + [0] + exits;
    }

    /** beamenu_export_exits (export.c:12-40). */
    method ExportExits(o: Node, width: nat) returns (b: seq<byte>)
      requires width > 0
      ensures b == if width in {1, 2, 4} then ExitsBytes(o.dst, width) else []
      ensures b == [] <==> o.dst == [] || width !in {1, 2, 4}
    {
      b := [];
      var i := 0;
      while i < |o.dst|
        invariant 0 <= i <= |o.dst| && (i > 0 ==> width in {1, 2, 4})
        invariant b == ExitsBytes(o.dst[..i], width) && (b == [] <==> i == 0)
      {
        if width != 4 && width != 2 && width != 1 {
          return [];
        }
        assert o.dst[..i + 1][..i] == o.dst[..i];
        b := b + ExitBytes(o.dst[i], width);
        i := i + 1;
      }
      assert o.dst[..i] == o.dst;
    }

    /** beamenu_load_file (import.c:7-50) on the contents of an opened file: when it succeeds, and what the table
        holds in either case. */
    method LoadFile(file: seq<byte>) returns (ok: bool)
      requires Valid()
      modifies node
      ensures Valid() && (ok <==> ReadTable(file, 0, nDst, nExits).Some?)
      ensures node[..] == Reloaded(old(node[..]), file, 0, nDst, nExits)
    {
      hide ReadName, AsInts;
      var rest := file;
      var i := 0;
      while i < nDst
        invariant Valid() && 0 <= i <= nDst
        invariant ReadTable(file, 0, nDst, nExits).Some? <==> ReadTable(rest, i, nDst - i, nExits).Some?
        invariant Reloaded(old(node[..]), file, 0, nDst, nExits) == Reloaded(node[..], rest, i, nDst - i, nExits)
      {
        var name := LoadName(rest);
        if name.NoName? {
          return false;
        }
        ghost var before := node[..];
        Register(i, name.cn);
        ok, rest := LoadExits(i, name.rest);
        assert node[..] == before[i := node[i]];
        if !ok {
          assert node[i].dst == AsInts(name.rest) + seq(nExits - |name.rest|, _ => 0);
          return;
        }
        i := i + 1;
      }
      return true;
    }

    /** The exit loop of import.c:41-47. */
    method LoadExits(i: nat, file: seq<byte>) returns (ok: bool, rest: seq<byte>)
      requires Valid() && i <= nDst
      modifies node
      ensures Valid() && (ok <==> nExits <= |file|)
      ensures forall k :: 0 <= k <= nDst && k != i ==> node[k] == old(node[k])
      ensures ok ==> node[i] == old(node[i]).(dst := AsInts(file[..nExits])) && rest == file[nExits..]
      ensures !ok ==> node[i] == old(node[i]).(dst := AsInts(file) + old(node[i]).dst[|file|..])
    {
      rest := file;
      var e := 0;
      while e < nExits
        invariant Valid() && 0 <= e <= nExits && e <= |file| && rest == file[e..]
        invariant forall k :: 0 <= k <= nDst && k != i ==> node[k] == old(node[k])
        invariant node[i] == old(node[i]).(dst := node[i].dst)
        invariant forall k :: 0 <= k < e ==> node[i].dst[k] == file[k]
        invariant forall k :: e <= k < nExits ==> node[i].dst[k] == old(node[i]).dst[k]
      {
        if rest == [] {
          assert node[i].dst == AsInts(file) + old(node[i]).dst[|file|..];
          return false, rest;
        }
        Set(i, e, rest[0]);
        rest := rest[1..];
        e := e + 1;
      }
      assert node[i].dst == AsInts(file[..nExits]);
      return true, rest;
    }

    /** The name loop of import.c:22-36. */
    method LoadName(file: seq<byte>) returns (r: Name)
      ensures r == ReadName(file, 0)
    {
      var p: seq<byte> := [];
      var rest := file;
      while true
        invariant |p| <= CN_MAXLEN + 1
        invariant ReadName(file, 0)
                  == match ReadName(rest, |p|) case NoName => NoName case Named(cn, after) => Named(p + cn, after)
        decreases |rest|
      {
        if |p| > CN_MAXLEN {
          return NoName;
        }
        if rest == [] {
          return NoName;
        }
        if rest[0] == 0 {
          assert p + [] == p;
          return Named(p, rest[1..]);
        }
        ghost var tail := ReadName(rest[1..], |p| + 1);
        if tail.Named? {
          assert p + ([rest[0]] + tail.cn) == (p + [rest[0]]) + tail.cn;
        }
        p, rest := p + [rest[0]], rest[1..];
      }
    }

    /** Export then load, into any other table of the same shape: everything is restored. */
    method CopyTo(other: Menu)
      requires Valid() && other.Valid() && other.node != node && other.nDst == nDst && other.nExits == nExits > 0
      requires Portable(node[..nDst], 0, nExits)
      modifies other.node
      ensures other.Valid() && other.node[..nDst] == node[..nDst]
    {
      TableRoundTrip(node[..nDst], 0, nExits, []);
      assert TableBytes(node[..nDst], 1) + [] == TableBytes(node[..nDst], 1);
      ReloadedIsTable(other.node[..], TableBytes(node[..nDst], 1), 0, nDst, nExits);
      var file := Export(1);
      var ok := other.LoadFile(file);
      assert other.node[..nDst] == other.node[..][0..0 + nDst];
    }
  }
}
