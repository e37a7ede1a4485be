/**
 * mg_trie_scan: whether an export trie holds an address that lowering the image base would
 * invalidate.
 */
module ExportTrie {
  import opened ByteStrings
  import opened Uleb

  const MAX_DEPTH := 128
  const TWO32 := 0x1_0000_0000

  /** What a terminal exports: nothing, another library's symbol, or addresses in this image. */
  datatype Terminal = NoTerminal | Reexport | Export(addresses: seq<nat>)

  datatype Node = Bad | Node(terminal: Terminal, kids: seq<nat>)

  predicate Reexported(flags: nat) { (flags / 8) % 2 == 1 }

  predicate HasResolver(flags: nat) { (flags / 0x10) % 2 == 1 }

  // ------------------------------------------------------ the trie's format

  /** A part of a node, or that it cannot be read. */
  datatype Parsed<T> = Failed | Ok(value: T)

  /** The terminal at p: a re-export, or one or two addresses. */
  function ReadTerminal(t: Bytes, p: nat): Parsed<Terminal>
    requires p <= |t|
  {
    var f := Decode(t[p..]);
    if f.Malformed? then Failed
    else if Reexported(f.value) then Ok(Reexport)
    else
      var a := Decode(t[p + f.len..]);
      if a.Malformed? then Failed
      else if !HasResolver(f.value) then Ok(Export([a.value]))
      else
        var r := Decode(t[p + f.len + a.len..]);
        if r.Malformed? then Failed else Ok(Export([a.value, r.value]))
  }

  /** Past the NUL-terminated edge label at p, or beyond the end if there is none. */
  function AfterLabel(t: Bytes, p: nat): (q: nat)
    ensures q > p
    decreases |t| - p
  {
    if p >= |t| then p + 1 else if t[p] == 0 then p + 1 else AfterLabel(t, p + 1)
  }

  /** The n children whose labels and offsets start at p. */
  function ReadKids(t: Bytes, p: nat, n: nat): (k: Parsed<seq<nat>>)
    ensures k.Ok? ==> |k.value| == n
    decreases n
  {
    if n == 0 then Ok([])
    else
      var q := AfterLabel(t, p);
      if q > |t| then Failed
      else
        var d := Decode(t[q..]);
        if d.Malformed? then Failed
        else
          var rest := ReadKids(t, q + d.len, n - 1);
          if rest.Failed? then Failed else Ok([d.value % TWO32] + rest.value)
  }

  /** The node at off: its terminal and the offsets of its children, or Bad. */
  function ReadNode(t: Bytes, off: nat): Node {
    if off >= |t| then Bad
    else
      var s := Decode(t[off..]);
      if s.Malformed? || off + s.len + s.value > |t| then Bad
      else
        var p := off + s.len;
        var term := if s.value == 0 then Ok(NoTerminal) else ReadTerminal(t, p);
        if term.Failed? || p + s.value >= |t| then Bad
        else
          var kids := ReadKids(t, p + s.value + 1, t[p + s.value]);
          if kids.Failed? then Bad else Node(term.value, kids.value)
  }

  predicate Clean(t: Terminal) { t.Export? ==> forall i :: 0 <= i < |t.addresses| ==> t.addresses[i] == 0 }

  // ------------------------------------------------------------- the scan

  datatype Verdict = Safe | NeedsReencoding | Malformed

  /** The part of the scan before the children: the verdict so far. */
  function ScanTerminal(t: Bytes, p: nat): Verdict
    requires p <= |t|
  {
    var f := Decode(t[p..]);
    if f.Malformed? then Verdict.Malformed
    else if Reexported(f.value) then Safe
    else
      var a := Decode(t[p + f.len..]);
      if a.Malformed? then Verdict.Malformed
      else if a.value != 0 then NeedsReencoding
      else if !HasResolver(f.value) then Safe
      else
        var r := Decode(t[p + f.len + a.len..]);
        if r.Malformed? then Verdict.Malformed else if r.value != 0 then NeedsReencoding else Safe
  }

  function Scan(t: Bytes, off: nat, depth: nat): Verdict
    decreases MAX_DEPTH + 1 - depth, 1, 0
  {
    if depth > MAX_DEPTH || off >= |t| then Verdict.Malformed
    else
      var s := Decode(t[off..]);
      if s.Malformed? then Verdict.Malformed
      else
        var p := off + s.len;
        if s.value != 0 && p + s.value > |t| then Verdict.Malformed
        else
          var v := if s.value == 0 then Safe else ScanTerminal(t, p);
          if v != Safe then v
          else if p + s.value >= |t| then Verdict.Malformed
          else ScanKids(t, p + s.value + 1, t[p + s.value], depth)
  }

  function ScanKids(t: Bytes, p: nat, n: nat, depth: nat): Verdict
    requires depth <= MAX_DEPTH
    decreases MAX_DEPTH + 1 - depth, 0, n
  {
    if n == 0 then Safe
    else
      var q := AfterLabel(t, p);
      if q > |t| then Verdict.Malformed
      else
        var d := Decode(t[q..]);
        if d.Malformed? then Verdict.Malformed
        else
          var v := Scan(t, d.value % TWO32, depth + 1);
          if v != Safe then v else ScanKids(t, q + d.len, n - 1, depth)
  }

  // ------------------------------------------------------- what Safe means

  lemma TerminalSafe(t: Bytes, p: nat)
    requires p <= |t| && ScanTerminal(t, p) == Safe
    ensures ReadTerminal(t, p).Ok? && Clean(ReadTerminal(t, p).value)
  {
    hide Decode;
  }

  lemma {:induction false} KidsSafe(t: Bytes, p: nat, n: nat, depth: nat)
    requires depth <= MAX_DEPTH && ScanKids(t, p, n, depth) == Safe
    ensures ReadKids(t, p, n).Ok?
    ensures forall k :: k in ReadKids(t, p, n).value ==> Scan(t, k, depth + 1) == Safe
    decreases n
  {
    hide Decode, Scan, AfterLabel;
    if n > 0 {
      var q := AfterLabel(t, p);
      KidsSafe(t, q + Decode(t[q..]).len, n - 1, depth);
    }
  }

  /** A safe node is well formed and clean, and its children are safe one level down. */
  lemma NodeSafe(t: Bytes, off: nat, depth: nat)
    requires Scan(t, off, depth) == Safe
    ensures depth <= MAX_DEPTH && ReadNode(t, off).Node? && Clean(ReadNode(t, off).terminal)
    ensures forall k :: k in ReadNode(t, off).kids ==> Scan(t, k, depth + 1) == Safe
  {
    hide Decode, ScanKids, ReadKids, ScanTerminal, ReadTerminal;
    var s := Decode(t[off..]);
    var p := off + s.len;
    if s.value != 0 { TerminalSafe(t, p); }
    KidsSafe(t, p + s.value + 1, t[p + s.value], depth);
  }

  // --------------------------------------------------------- reachability

  predicate Edge(t: Bytes, a: nat, b: nat) { ReadNode(t, a).Node? && b in ReadNode(t, a).kids }

  /** A walk in the trie from the root. */
  predicate Path(t: Bytes, p: seq<nat>) {
    |p| > 0 && p[0] == 0 && forall i :: 0 <= i < |p| - 1 ==> Edge(t, p[i], p[i + 1])
  }

  lemma {:induction false} PathSafe(t: Bytes, p: seq<nat>)
    requires Scan(t, 0, 0) == Safe && Path(t, p)
    ensures |p| <= MAX_DEPTH + 1 && Scan(t, p[|p| - 1], |p| - 1) == Safe
    ensures ReadNode(t, p[|p| - 1]).Node? && Clean(ReadNode(t, p[|p| - 1]).terminal)
    decreases |p|
  {
    hide Scan, ReadNode;
    if |p| > 1 {
      var q := p[..|p| - 1];
      assert forall i :: 0 <= i < |q| ==> q[i] == p[i];
      PathSafe(t, q);
      NodeSafe(t, q[|q| - 1], |q| - 1);
      assert Edge(t, p[|p| - 2], p[|p| - 1]);
    }
    NodeSafe(t, p[|p| - 1], |p| - 1);
  }

  /** Going round the cycle p[i..j] k more times. */
  function Pump(p: seq<nat>, i: nat, j: nat, k: nat): (r: seq<nat>)
    requires i < j < |p|
    ensures |r| == j + 1 + k * (j - i)
    decreases k
  {
    if k == 0 then p[..j + 1] else Pump(p, i, j, k - 1) + p[i + 1..j + 1]
  }

  lemma {:induction false} PumpPath(t: Bytes, p: seq<nat>, i: nat, j: nat, k: nat)
    requires Path(t, p) && i < j < |p| && p[i] == p[j]
    ensures Path(t, Pump(p, i, j, k)) && Pump(p, i, j, k)[|Pump(p, i, j, k)| - 1] == p[j]
    decreases k
  {
    hide Edge;
    if k == 0 {
      assert forall x :: 0 <= x < j + 1 ==> p[..j + 1][x] == p[x];
    } else {
      PumpPath(t, p, i, j, k - 1);
      Continue(t, Pump(p, i, j, k - 1), p, i, j);
    }
  }

  lemma Continue(t: Bytes, a: seq<nat>, p: seq<nat>, i: nat, j: nat)
    requires Path(t, a) && Path(t, p) && i < j < |p| && a[|a| - 1] == p[i]
    ensures Path(t, a + p[i + 1..j + 1])
  {
    hide Edge;
    var r := a + p[i + 1..j + 1];
    forall x | 0 <= x < |r| - 1
      ensures Edge(t, r[x], r[x + 1])
    {
      if x < |a| - 1 {
        assert Edge(t, a[x], a[x + 1]);
      } else {
        var y := i + (x - (|a| - 1));
        assert r[x] == p[y] && r[x + 1] == p[y + 1];
        assert Edge(t, p[y], p[y + 1]);
      }
    }
  }

  /**
   * If the scan of the root says Safe, every node that can be reached is well formed, exports
   * no address but zero, and lies on no cycle.
   */
  lemma ScanSound(t: Bytes, p: seq<nat>)
    requires Scan(t, 0, 0) == Safe && Path(t, p)
    ensures ReadNode(t, p[|p| - 1]).Node? && Clean(ReadNode(t, p[|p| - 1]).terminal)
    ensures forall i, j :: 0 <= i < j < |p| ==> p[i] != p[j]
  {
    hide Scan, ReadNode, Edge;
    PathSafe(t, p);
    forall i, j | 0 <= i < j < |p|
      ensures p[i] != p[j]
    {
      NoCycle(t, p, i, j);
    }
  }

  lemma NoCycle(t: Bytes, p: seq<nat>, i: nat, j: nat)
    requires Scan(t, 0, 0) == Safe && Path(t, p) && i < j < |p|
    ensures p[i] != p[j]
  {
    hide Scan, ReadNode, Edge;
    if p[i] == p[j] {
      PumpPath(t, p, i, j, MAX_DEPTH + 1);
      Times(j - i);
      PathSafe(t, Pump(p, i, j, MAX_DEPTH + 1));
    }
  }

  lemma Times(d: nat)
    requires d > 0
    ensures (MAX_DEPTH + 1) * d >= MAX_DEPTH + 1
  {}

  // ----------------------------------------------------- when it is Safe

  lemma TerminalClean(t: Bytes, p: nat)
    requires p <= |t| && ReadTerminal(t, p).Ok? && Clean(ReadTerminal(t, p).value)
    ensures ScanTerminal(t, p) == Safe
  {
    hide Decode;
    var term := ReadTerminal(t, p).value;
    if term.Export? {
      assert term.addresses[0] == 0;
      if |term.addresses| == 2 { assert term.addresses[1] == 0; }
    }
  }

  lemma {:induction false} KidsClean(t: Bytes, p: nat, n: nat, depth: nat)
    requires depth <= MAX_DEPTH && ReadKids(t, p, n).Ok?
    requires forall k :: k in ReadKids(t, p, n).value ==> Scan(t, k, depth + 1) == Safe
    ensures ScanKids(t, p, n, depth) == Safe
    decreases n
  {
    hide Decode, Scan, AfterLabel;
    if n > 0 {
      var q := AfterLabel(t, p);
      var k := Decode(t[q..]).value % TWO32;
      var all, rest := ReadKids(t, p, n).value, ReadKids(t, q + Decode(t[q..]).len, n - 1).value;
      assert all == [k] + rest;
      assert all[0] == k && k in all;
      forall x | x in rest
        ensures Scan(t, x, depth + 1) == Safe
      {
        assert x in all;
      }
      KidsClean(t, q + Decode(t[q..]).len, n - 1, depth);
    }
  }

  /** A well-formed, clean node with safe children is safe. */
  lemma NodeClean(t: Bytes, off: nat, depth: nat)
    requires depth <= MAX_DEPTH && ReadNode(t, off).Node? && Clean(ReadNode(t, off).terminal)
    requires forall k :: k in ReadNode(t, off).kids ==> Scan(t, k, depth + 1) == Safe
    ensures Scan(t, off, depth) == Safe
  {
    hide Decode, ScanKids, ReadKids, ScanTerminal, ReadTerminal;
    var s := Decode(t[off..]);
    var p := off + s.len;
    if s.value != 0 { TerminalClean(t, p); }
    KidsClean(t, p + s.value + 1, t[p + s.value], depth);
  }

  predicate PathFrom(t: Bytes, off: nat, p: seq<nat>) {
    |p| > 0 && p[0] == off && forall i :: 0 <= i < |p| - 1 ==> Edge(t, p[i], p[i + 1])
  }

  predicate NodeFine(t: Bytes, off: nat) { ReadNode(t, off).Node? && Clean(ReadNode(t, off).terminal) }

  /** If a node is not safe, a path leads to one that is malformed or not clean, or too deep. */
  lemma {:induction false} Culprit(t: Bytes, off: nat, depth: nat) returns (p: seq<nat>)
    requires depth <= MAX_DEPTH + 1 && Scan(t, off, depth) != Safe
    ensures PathFrom(t, off, p) && (depth + |p| > MAX_DEPTH + 1 || !NodeFine(t, p[|p| - 1]))
    decreases MAX_DEPTH + 1 - depth
  {
    hide Scan, ReadNode, Clean;
    p := [off];
    if depth <= MAX_DEPTH && NodeFine(t, off) {
      if forall k :: k in ReadNode(t, off).kids ==> Scan(t, k, depth + 1) == Safe {
        NodeClean(t, off, depth);
      }
      var k :| k in ReadNode(t, off).kids && Scan(t, k, depth + 1) != Safe;
      var q := Culprit(t, k, depth + 1);
      p := [off] + q;
      assert q[0] == k && Edge(t, off, k) && p[|p| - 1] == q[|q| - 1];
      Prepended(t, off, q);
    }
  }

  lemma Prepended(t: Bytes, off: nat, q: seq<nat>)
    requires |q| > 0 && PathFrom(t, q[0], q) && Edge(t, off, q[0])
    ensures PathFrom(t, off, [off] + q)
  {
    hide Edge;
    var p := [off] + q;
    forall i | 0 <= i < |p| - 1
      ensures Edge(t, p[i], p[i + 1])
    {
      if i > 0 { assert p[i] == q[i - 1] && p[i + 1] == q[i]; }
    }
  }

  /**
   * The scan says Safe exactly if every path from the root is within the depth limit and ends at a
   * node that is well formed and exports no address but zero.
   */
  lemma ScanExact(t: Bytes)
    ensures Scan(t, 0, 0) == Safe <==> forall p :: Path(t, p) ==> |p| <= MAX_DEPTH + 1 && NodeFine(t, p[|p| - 1])
  {
    hide Scan, ReadNode, Edge, Clean;
    if Scan(t, 0, 0) == Safe {
      forall p | Path(t, p)
        ensures |p| <= MAX_DEPTH + 1 && NodeFine(t, p[|p| - 1])
      {
        PathSafe(t, p);
      }
    } else {
      var p := Culprit(t, 0, 0);
      assert Path(t, p);
    }
  }

  // -------------------------------------------------------------- the walk

  method SkipLabel(buf: array<Byte>, start: nat, end: nat, from: nat) returns (q: nat)
    requires start + from <= end <= buf.Length
    ensures if AfterLabel(buf[start..end], from) <= end - start then q == AfterLabel(buf[start..end], from)
            else q == end - start + 1
  {
    ghost var t := buf[start..end];
    q := from;
    while start + q < end && buf[start + q] != 0
      invariant from <= q <= |t| && AfterLabel(t, from) == AfterLabel(t, q)
    {
      assert buf[start + q] == t[q];
      q := q + 1;
    }
    if start + q < end { assert buf[start + q] == t[q]; }
    q := q + 1;
  }

  method DecodeFrom(buf: array<Byte>, start: nat, end: nat, p: nat) returns (d: Decoded)
    requires start + p <= end <= buf.Length
    ensures d == Decode(buf[start..end][p..])
  {
    assert buf[start + p..end] == buf[start..end][p..];
    d := DecodeAt(buf, start + p, end);
  }

  method CheckTerminal(buf: array<Byte>, start: nat, end: nat, p: nat) returns (v: Verdict)
    requires start + p <= end <= buf.Length
    ensures v == ScanTerminal(buf[start..end], p)
  {
    hide Decode;
    var f := DecodeFrom(buf, start, end, p);
    if f.Malformed? { return Verdict.Malformed; }
    if Reexported(f.value) { return Safe; }
    var a := DecodeFrom(buf, start, end, p + f.len);
    if a.Malformed? { return Verdict.Malformed; }
    if a.value != 0 { return NeedsReencoding; }
    if !HasResolver(f.value) { return Safe; }
    var r := DecodeFrom(buf, start, end, p + f.len + a.len);
    if r.Malformed? { return Verdict.Malformed; }
    v := if r.value != 0 then NeedsReencoding else Safe;
  }

  /** mg_trie_scan on the trie [start, end) of a buffer. */
  method ScanTrie(buf: array<Byte>, start: nat, end: nat, off: nat, depth: nat) returns (v: Verdict)
    requires start <= end <= buf.Length
    ensures v == Scan(buf[start..end], off, depth)
    decreases MAX_DEPTH + 1 - depth, 1
  {
    hide Decode, AfterLabel, ScanTerminal, ScanKids;
    ghost var t := buf[start..end];
    if depth > MAX_DEPTH || start + off >= end { return Verdict.Malformed; }
    var s := DecodeFrom(buf, start, end, off);
    if s.Malformed? { return Verdict.Malformed; }
    var p := off + s.len;
    if s.value != 0 {
      if start + p + s.value > end { return Verdict.Malformed; }
      v := CheckTerminal(buf, start, end, p);
      if v != Safe { return; }
      p := p + s.value;
    }
    if start + p >= end { return Verdict.Malformed; }
    var n := buf[start + p];
    assert n == t[p];
    v := ScanChildren(buf, start, end, p + 1, n, depth);
  }

  method ScanChildren(buf: array<Byte>, start: nat, end: nat, first: nat, n: nat, depth: nat) returns (v: Verdict)
    requires start + first <= end <= buf.Length && depth <= MAX_DEPTH
    ensures v == ScanKids(buf[start..end], first, n, depth)
    decreases MAX_DEPTH + 1 - depth, 0
  {
    hide Decode, Scan, AfterLabel;
    ghost var t := buf[start..end];
    var p: nat, i: nat := first, 0;
    while i < n
      invariant 0 <= i <= n && p <= |t| && ScanKids(t, first, n, depth) == ScanKids(t, p, n - i, depth)
    {
      var q := SkipLabel(buf, start, end, p);
      if start + q > end { return Verdict.Malformed; }
      var d := DecodeFrom(buf, start, end, q);
      if d.Malformed? { return Verdict.Malformed; }
      v := ScanTrie(buf, start, end, d.value % TWO32, depth + 1);
      if v != Safe { return; }
      p := q + d.len;
      i := i + 1;
    }
    v := Safe;
  }
}
