/** Binary attachments of container nodes, and the container object
    (include/hipSYCL/common/hcf_container.hpp). */
module HcfBinary {
  import opened Words
  import opened HcfText
  import opened HcfParse
  import opened HcfContainer

  const BINARY: string := "__binary"

  /** get_subnode: the first subnode with the id, or the number of subnodes. */
  function SubIndex(subs: seq<Node>, id: string): (k: nat)
    ensures k <= |subs|
    ensures k < |subs| ==> subs[k].id == id
    ensures forall j :: 0 <= j < k ==> subs[j].id != id
  {
    if subs == [] || subs[0].id == id then 0
    else
      var k := 1 + SubIndex(subs[1..], id);
      assert forall j :: 1 <= j < k ==> subs[j] == subs[1..][j - 1];
      k
  }

  /** get_value: the first value of the key. */
  function ValueOf(kvs: seq<KeyValue>, key: string): Option<string> {
    if kvs == [] then None else if kvs[0].key == key then Some(kvs[0].value) else ValueOf(kvs[1..], key)
  }

  datatype Binary = Found(content: string) | Missing | Throws

  /** The bytes that a descriptor node refers to. */
  function Content(kvs: seq<KeyValue>, appendix: string): Binary {
    match (ValueOf(kvs, "start"), ValueOf(kvs, "size"))
    case (Some(start), Some(size)) =>
      (match (Stoull(start), Stoull(size))
       case (Some(from), Some(length)) =>
         if (from + length) % WORD > |appendix| then Missing
         else if from > |appendix| then Throws
         else Found(appendix[from..if from + length <= |appendix| then from + length else |appendix|])
       case _ => Throws)
    case _ => Missing
  }

  /** get_binary_attachment of a node. */
  function GetBinary(n: Node, appendix: string): Binary {
    if n.id == BINARY then Content(n.kvs, appendix)
    else
      var k := SubIndex(n.subs, BINARY);
      if k == |n.subs| then Missing else Content(n.subs[k].kvs, appendix)
  }

  // ---------------------------------------------------------------------------------------------
  // attach_binary_content

  /** The descriptor of an attachment. */
  function Descriptor(start: nat, size: nat): Node {
    Node([KeyValue("start", ToDecimal(start)), KeyValue("size", ToDecimal(size))], [], BINARY)
  }

  /** A pointer to a node: the positions of the subnodes on the way from the root. */
  predicate IsPath(n: Node, path: seq<nat>) {
    path == [] || (path[0] < |n.subs| && IsPath(n.subs[path[0]], path[1..]))
  }

  function NodeAt(n: Node, path: seq<nat>): Node
    requires IsPath(n, path)
    decreases path
  {
    if path == [] then n else NodeAt(n.subs[path[0]], path[1..])
  }

  predicate HasBinary(n: Node) {
    SubIndex(n.subs, BINARY) < |n.subs|
  }

  /** The tree with a descriptor added to the node at the path. */
  function AttachAt(n: Node, path: seq<nat>, d: Node): Node
    requires IsPath(n, path)
    decreases path
  {
    if path == [] then Node(n.kvs, n.subs + [d], n.id)
    else Node(n.kvs, n.subs[path[0] := AttachAt(n.subs[path[0]], path[1..], d)], n.id)
  }

  lemma SubIndexAppend(subs: seq<Node>, d: Node)
    requires SubIndex(subs, d.id) == |subs|
    ensures SubIndex(subs + [d], d.id) == |subs|
  {
    var all := subs + [d];
    assert all[|subs|] == d && forall j :: 0 <= j < |subs| ==> all[j] == subs[j];
  }

  lemma DescriptorValues(start: nat, size: nat)
    ensures ValueOf(Descriptor(start, size).kvs, "start") == Some(ToDecimal(start))
    ensures ValueOf(Descriptor(start, size).kvs, "size") == Some(ToDecimal(size))
  {
    var kvs := Descriptor(start, size).kvs;
    assert kvs[1..] == [kvs[1]];
    assert "start" != "size" by { assert "start"[1] != "size"[1]; }
  }

  lemma ContentOfDescriptor(start: nat, size: nat, appendix: string)
    requires start + size <= |appendix| < WORD
    ensures Content(Descriptor(start, size).kvs, appendix) == Found(appendix[start..start + size])
    ensures Exact(Descriptor(start, size).kvs, appendix)
  {
    DecimalRoundTrip(start);
    DecimalRoundTrip(size);
    DescriptorValues(start, size);
  }

  /** More binary data does not change what a descriptor refers to. */
  lemma ContentGrows(kvs: seq<KeyValue>, appendix: string, more: string)
    requires Exact(kvs, appendix) && |appendix + more| < WORD
    ensures Content(kvs, appendix + more) == Content(kvs, appendix) && Exact(kvs, appendix + more)
  {
    var from, length := Stoull(ValueOf(kvs, "start").value).value, Stoull(ValueOf(kvs, "size").value).value;
    assert (appendix + more)[from..from + length] == appendix[from..from + length];
  }

  /** The descriptor names a range inside the appendix. */
  predicate Exact(kvs: seq<KeyValue>, appendix: string) {
    match (ValueOf(kvs, "start"), ValueOf(kvs, "size"))
    case (Some(start), Some(size)) =>
      (match (Stoull(start), Stoull(size))
       case (Some(from), Some(length)) => from + length <= |appendix|
       case _ => false)
    case _ => false
  }

  // ---------------------------------------------------------------------------------------------
  // Attachments are found again

  /** The key-value pairs that describe the attachment of a node. */
  function DescriptorOf(n: Node): Option<seq<KeyValue>> {
    if n.id == BINARY then Some(n.kvs)
    else if HasBinary(n) then Some(n.subs[SubIndex(n.subs, BINARY)].kvs)
    else None
  }

  lemma SubIndexSameIds(subs: seq<Node>, subs': seq<Node>, id: string)
    requires |subs| == |subs'| && forall j :: 0 <= j < |subs| ==> subs[j].id == subs'[j].id
    ensures SubIndex(subs, id) == SubIndex(subs', id)
  {
    var k, k' := SubIndex(subs, id), SubIndex(subs', id);
    assert k < |subs| ==> subs'[k].id == id;
    assert k' < |subs| ==> subs[k'].id == id;
  }

  /** Attaching leaves the name and the pairs of every node as they are. */
  lemma AttachSameRoot(n: Node, path: seq<nat>, d: Node)
    requires IsPath(n, path)
    ensures AttachAt(n, path, d).id == n.id && AttachAt(n, path, d).kvs == n.kvs
  {
  }

  lemma AttachKeepsDescriptor(n: Node, path: seq<nat>, d: Node)
    requires IsPath(n, path) && d.id == BINARY && (path == [] ==> !HasBinary(n)) && DescriptorOf(n).Some?
    ensures DescriptorOf(AttachAt(n, path, d)) == DescriptorOf(n)
  {
    if path != [] {
      var n' := AttachAt(n, path, d);
      AttachSameRoot(n.subs[path[0]], path[1..], d);
      SubIndexSameIds(n.subs, n'.subs, BINARY);
    }
  }

  /** Attaching to one node keeps the attachments of all nodes, and all pointers. */
  lemma {:induction false} AttachKeepsOthers(n: Node, path: seq<nat>, d: Node, other: seq<nat>)
    requires IsPath(n, path) && IsPath(n, other) && d.id == BINARY && !HasBinary(NodeAt(n, path))
    ensures IsPath(AttachAt(n, path, d), other)
    ensures DescriptorOf(NodeAt(n, other)).Some? ==>
              DescriptorOf(NodeAt(AttachAt(n, path, d), other)) == DescriptorOf(NodeAt(n, other))
    decreases other
  {
    if other == [] {
      if DescriptorOf(n).Some? { AttachKeepsDescriptor(n, path, d); }
    } else if path != [] && path[0] == other[0] {
      AttachKeepsOthers(n.subs[path[0]], path[1..], d, other[1..]);
    } else {
      assert AttachAt(n, path, d).subs[other[0]] == n.subs[other[0]];
    }
  }

  lemma {:induction false} AttachReaches(n: Node, path: seq<nat>, d: Node)
    requires IsPath(n, path)
    ensures IsPath(AttachAt(n, path, d), path)
    ensures NodeAt(AttachAt(n, path, d), path) == Node(NodeAt(n, path).kvs, NodeAt(n, path).subs + [d],
            NodeAt(n, path).id)
    decreases path
  {
    if path != [] { AttachReaches(n.subs[path[0]], path[1..], d); }
  }

  /** The content attached to a node is what is found there afterwards. */
  lemma AttachedIsFound(n: Node, path: seq<nat>, appendix: string, content: string)
    requires IsPath(n, path) && NodeAt(n, path).id != BINARY && !HasBinary(NodeAt(n, path))
    requires |appendix + content| < WORD
    ensures var n' := AttachAt(n, path, Descriptor(|appendix|, |content|));
            && IsPath(n', path) && GetBinary(NodeAt(n', path), appendix + content) == Found(content)
            && DescriptorOf(NodeAt(n', path)).Some? && Exact(DescriptorOf(NodeAt(n', path)).value, appendix + content)
  {
    var d := Descriptor(|appendix|, |content|);
    AttachReaches(n, path, d);
    SubIndexAppend(NodeAt(n, path).subs, d);
    ContentOfDescriptor(|appendix|, |content|, appendix + content);
    assert (appendix + content)[|appendix|..|appendix| + |content|] == content;
  }

  /** At a node that is itself named as a descriptor, the code goes on reading the node's own pairs. */
  lemma AttachedToDescriptor(n: Node, path: seq<nat>, appendix: string, content: string)
    requires IsPath(n, path) && NodeAt(n, path).id == BINARY
    ensures var n' := AttachAt(n, path, Descriptor(|appendix|, |content|));
            IsPath(n', path) && GetBinary(NodeAt(n', path), appendix + content) == Content(NodeAt(n, path).kvs,
              appendix + content)
  {
    AttachReaches(n, path, Descriptor(|appendix|, |content|));
  }

  /** Exactly when an attached content is found again: the node is not named as a descriptor, or its
      own pairs happen to describe the same bytes. Without pairs of its own only the name counts. */
  lemma AttachedFoundIff(n: Node, path: seq<nat>, appendix: string, content: string)
    requires IsPath(n, path) && !HasBinary(NodeAt(n, path)) && |appendix + content| < WORD
    ensures var n', kvs := AttachAt(n, path, Descriptor(|appendix|, |content|)), NodeAt(n, path).kvs;
            && IsPath(n', path)
            && (GetBinary(NodeAt(n', path), appendix + content) == Found(content) <==>
                NodeAt(n, path).id != BINARY || Content(kvs, appendix + content) == Found(content))
            && (ValueOf(kvs, "start").None? || ValueOf(kvs, "size").None? ==>
                (GetBinary(NodeAt(n', path), appendix + content) == Found(content) <==> NodeAt(n, path).id != BINARY))
  {
    if NodeAt(n, path).id == BINARY {
      AttachedToDescriptor(n, path, appendix, content);
    } else {
      AttachedIsFound(n, path, appendix, content);
    }
  }

  /** A node of the root that is named as a descriptor and has no pairs. */
  const DescriptorName: Node := Node([], [Node([], [], BINARY)], "root")

  /** Attaching to it succeeds, and nothing is found afterwards. */
  lemma DescriptorNameLosesContent(content: string)
    requires |content| < WORD
    ensures IsPath(DescriptorName, [0]) && !HasBinary(NodeAt(DescriptorName, [0]))
    ensures var n' := AttachAt(DescriptorName, [0], Descriptor(0, |content|));
            IsPath(n', [0]) && GetBinary(NodeAt(n', [0]), content) == Missing
  {
    assert [0][1..] == [];
    assert NodeAt(DescriptorName, [0]) == Node([], [], BINARY);
    assert "" + content == content;
    AttachedToDescriptor(DescriptorName, [0], "", content);
  }

  /** Later attachments do not change what is found at a node. */
  lemma FoundStaysFound(n: Node, path: seq<nat>, appendix: string, content: string, other: seq<nat>)
    requires IsPath(n, path) && IsPath(n, other) && !HasBinary(NodeAt(n, path)) && |appendix + content| < WORD
    requires DescriptorOf(NodeAt(n, other)).Some? && Exact(DescriptorOf(NodeAt(n, other)).value, appendix)
    ensures var n' := AttachAt(n, path, Descriptor(|appendix|, |content|));
            && IsPath(n', other)
              && GetBinary(NodeAt(n', other), appendix + content) == GetBinary(NodeAt(n, other), appendix)
            && DescriptorOf(NodeAt(n', other)).Some? && Exact(DescriptorOf(NodeAt(n', other)).value, appendix + content)
  {
    AttachKeepsOthers(n, path, Descriptor(|appendix|, |content|), other);
    ContentGrows(DescriptorOf(NodeAt(n, other)).value, appendix, content);
  }

  // ---------------------------------------------------------------------------------------------
  // Attachments and the text format

  lemma ShortIsPlain(s: string)
    requires OneLine(s) && |s| < 26
    ensures Plain(s)
  {
    NoLineBreakInMarker();
  }

  lemma DecimalIsPlain(n: nat)
    ensures Plain(ToDecimal(n)) && NoTrailingSpace(ToDecimal(n))
  {
    var s := ToDecimal(n);
    assert s[|s| - 1] in s;
    if Contains(s, APPENDIX) {
      StartOccurs(s, APPENDIX);
    }
  }

  lemma StartOccurs(s: string, pat: string)
    requires Contains(s, pat) && pat != ""
    ensures pat[0] in s
  {
    var i :| OccursAt(s, pat, i);
    assert s[i] == s[i..i + |pat|][0];
  }

  lemma NumberIsGood(key: string, n: nat)
    requires key == "start" || key == "size"
    ensures GoodPair(KeyValue(key, ToDecimal(n)))
  {
    ShortIsPlain(key);
    DecimalIsPlain(n);
  }

  lemma DescriptorLines(start: nat, size: nat)
    ensures var d := Descriptor(start, size); NodeLines(d) == [KvLine(d.kvs[0]), KvLine(d.kvs[1])]
  {
    var kvs := Descriptor(start, size).kvs;
    assert kvs[1..] == [kvs[1]];
    assert [kvs[1]][1..] == [];
    assert KvLines([kvs[1]]) == [KvLine(kvs[1])];
    assert KvLines(kvs) == [KvLine(kvs[0])] + KvLines(kvs[1..]);
  }

  lemma DescriptorIsGood(start: nat, size: nat)
    ensures GoodSub(Descriptor(start, size))
  {
    var d := Descriptor(start, size);
    ShortIsPlain(BINARY);
    NumberIsGood("start", start);
    NumberIsGood("size", size);
    DescriptorLines(start, size);
    assert KvLine(d.kvs[0])[0] == 's' && KvLine(d.kvs[1])[0] == 's' && (END + BINARY)[0] == '}';
  }

  /** The lines that a subnode adds to the text. */
  function SubNodeLines(d: Node): seq<string> {
    [START + d.id] + NodeLines(d) + [END + d.id]
  }

  lemma {:induction false} SubLinesUpdate(subs: seq<Node>, k: nat, s': Node, extra: seq<string>, l: string)
    requires k < |subs| && s'.id == subs[k].id && (l in NodeLines(s') <==> l in NodeLines(subs[k]) || l in extra)
    ensures l in SubLines(subs[k := s']) <==> l in SubLines(subs) || l in extra
  {
    var subs' := subs[k := s'];
    assert l in SubLines(subs) <==>
           l == START + subs[0].id || l in NodeLines(subs[0]) || l == END + subs[0].id || l in SubLines(subs[1..]);
    assert l in SubLines(subs') <==>
           l == START + subs'[0].id || l in NodeLines(subs'[0]) || l == END + subs'[0].id
           || l in SubLines(subs'[1..]);
    if k == 0 {
      assert subs'[1..] == subs[1..];
    } else {
      assert subs'[1..] == subs[1..][k - 1 := s'];
      SubLinesUpdate(subs[1..], k - 1, s', extra, l);
    }
  }

  /** Attaching adds the lines of the descriptor and no others. */
  lemma {:induction false} AttachLines(n: Node, path: seq<nat>, d: Node, l: string)
    requires IsPath(n, path)
    ensures l in NodeLines(AttachAt(n, path, d)) <==> l in NodeLines(n) || l in SubNodeLines(d)
    decreases path
  {
    if path == [] {
      SubLinesAppend(n.subs, d);
    } else {
      var k := path[0];
      AttachLines(n.subs[k], path[1..], d, l);
      AttachSameRoot(n.subs[k], path[1..], d);
      SubLinesUpdate(n.subs, k, AttachAt(n.subs[k], path[1..], d), SubNodeLines(d), l);
    }
  }

  /** No node on the way, apart from the first, is itself a descriptor. */
  predicate NoDescriptorOnWay(n: Node, path: seq<nat>)
    requires IsPath(n, path)
    decreases path
  {
    path == [] || (n.subs[path[0]].id != BINARY && NoDescriptorOnWay(n.subs[path[0]], path[1..]))
  }

  lemma EndLineOfDescriptor(start: nat, size: nat, id: string)
    ensures END + id in SubNodeLines(Descriptor(start, size)) <==> id == BINARY
  {
    var d := Descriptor(start, size);
    DescriptorLines(start, size);
    assert KvLine(d.kvs[0])[0] == 's' && KvLine(d.kvs[1])[0] == 's' && (END + id)[0] == '}'
           && (START + BINARY)[0] == '{';
    assert END + id == END + BINARY ==> (END + id)[2..] == (END + BINARY)[2..];
  }

  /** Attaching to a node of a good tree keeps the tree good exactly when the node is not inside a
      descriptor. */
  lemma {:induction false} AttachKeepsGoodIff(n: Node, path: seq<nat>, start: nat, size: nat)
    requires Good(n) && IsPath(n, path)
    ensures Good(AttachAt(n, path, Descriptor(start, size))) <==> NoDescriptorOnWay(n, path)
    decreases path
  {
    var d := Descriptor(start, size);
    if path == [] {
      DescriptorIsGood(start, size);
    } else {
      var k := path[0];
      var s, rest := n.subs[k], path[1..];
      var s' := AttachAt(s, rest, d);
      assert GoodSub(s);
      AttachKeepsGoodIff(s, rest, start, size);
      AttachSameRoot(s, rest, d);
      AttachLines(s, rest, d, END + s.id);
      EndLineOfDescriptor(start, size, s.id);
      assert GoodSub(s') <==> Good(s') && s.id != BINARY;
      GoodUpdate(n, k, s');
    }
  }

  lemma GoodUpdate(n: Node, k: nat, s': Node)
    requires Good(n) && k < |n.subs|
    ensures Good(Node(n.kvs, n.subs[k := s'], n.id)) <==> GoodSub(s')
  {
    var subs' := n.subs[k := s'];
    assert subs'[k] == s';
  }

  // ---------------------------------------------------------------------------------------------
  // Any number of attachments

  datatype Attachment = Attachment(path: seq<nat>, content: string)

  /** The node exists and has no attachment yet, so that attaching to it succeeds. */
  predicate Attachable(n: Node, path: seq<nat>) {
    IsPath(n, path) && !HasBinary(NodeAt(n, path))
  }

  /** The tree after one attachment. */
  function Attached(n: Node, appendix: string, a: Attachment): Node
    requires Attachable(n, a.path)
  {
    AttachAt(n, a.path, Descriptor(|appendix|, |a.content|))
  }

  /** The tree and the binary data after a list of attachments; failing ones have no effect. */
  function AttachAll(n: Node, appendix: string, todo: seq<Attachment>): (Node, string)
    decreases |todo|
  {
    if todo == [] then (n, appendix)
    else if Attachable(n, todo[0].path) then
      AttachAll(Attached(n, appendix, todo[0]), appendix + todo[0].content, todo[1..])
    else AttachAll(n, appendix, todo[1..])
  }

  function TotalSize(todo: seq<Attachment>): nat {
    if todo == [] then 0 else |todo[0].content| + TotalSize(todo[1..])
  }

  /** What is found at a node stays found there, whatever is attached later. */
  lemma {:induction false} FoundThroughout(n: Node, appendix: string, todo: seq<Attachment>, path: seq<nat>)
    requires IsPath(n, path) && |appendix| + TotalSize(todo) < WORD
    requires DescriptorOf(NodeAt(n, path)).Some? && Exact(DescriptorOf(NodeAt(n, path)).value, appendix)
    ensures var (n', appendix') := AttachAll(n, appendix, todo);
            IsPath(n', path) && GetBinary(NodeAt(n', path), appendix') == GetBinary(NodeAt(n, path), appendix)
    decreases |todo|
  {
    if todo != [] {
      if Attachable(n, todo[0].path) {
        FoundStaysFound(n, todo[0].path, appendix, todo[0].content, path);
        FoundThroughout(Attached(n, appendix, todo[0]), appendix + todo[0].content, todo[1..], path);
      } else {
        FoundThroughout(n, appendix, todo[1..], path);
      }
    }
  }

  /** Every attachment to a node that is not named as a descriptor is found in the end. */
  lemma {:induction false} AllAttachedFound(n: Node, appendix: string, todo: seq<Attachment>, k: nat)
    requires k < |todo| && |appendix| + TotalSize(todo) < WORD
    requires var before := AttachAll(n, appendix, todo[..k]).0;
             Attachable(before, todo[k].path) && NodeAt(before, todo[k].path).id != BINARY
    ensures var (n', appendix') := AttachAll(n, appendix, todo);
            IsPath(n', todo[k].path) && GetBinary(NodeAt(n', todo[k].path), appendix') == Found(todo[k].content)
    decreases |todo|
  {
    var a, rest := todo[0], todo[1..];
    var n1, appendix1 := n, appendix;
    if Attachable(n, a.path) {
      n1, appendix1 := Attached(n, appendix, a), appendix + a.content;
    }
    if k == 0 {
      assert todo[..0] == [];
      AttachedIsFound(n, a.path, appendix, a.content);
      FoundThroughout(n1, appendix1, rest, a.path);
    } else {
      assert todo[..k][0] == a && todo[..k][1..] == rest[..k - 1];
      AllAttachedFound(n1, appendix1, rest, k - 1);
    }
  }

  /** No attachment that is performed goes to a descriptor or inside one. */
  predicate AllOutside(n: Node, appendix: string, todo: seq<Attachment>)
    decreases |todo|
  {
    todo == [] ||
    (if Attachable(n, todo[0].path)
     then NoDescriptorOnWay(n, todo[0].path)
       && AllOutside(Attached(n, appendix, todo[0]), appendix + todo[0].content, todo[1..])
     else AllOutside(n, appendix, todo[1..]))
  }

  /** Attaching does not repair a tree. */
  lemma {:induction false} GoodBefore(n: Node, path: seq<nat>, d: Node)
    requires IsPath(n, path) && Good(AttachAt(n, path, d))
    ensures Good(n)
    decreases path
  {
    var n' := AttachAt(n, path, d);
    if path == [] {
      forall s | s in n.subs ensures GoodSub(s) { assert s in n'.subs; }
    } else {
      var k := path[0];
      var s, s' := n.subs[k], n'.subs[k];
      assert GoodSub(s');
      GoodBefore(s, path[1..], d);
      AttachSameRoot(s, path[1..], d);
      AttachLines(s, path[1..], d, END + s.id);
      forall x | x in n.subs ensures GoodSub(x) {
        var i :| 0 <= i < |n.subs| && n.subs[i] == x;
        if i != k { assert n'.subs[i] == x && x in n'.subs; }
      }
    }
  }

  /** The tree after a list of attachments is good exactly when it was good before and all performed
      attachments are outside descriptors. */
  lemma {:induction false} AllAttachedGoodIff(n: Node, appendix: string, todo: seq<Attachment>)
    ensures AttachAll(n, appendix, todo).0.id == n.id
    ensures Good(AttachAll(n, appendix, todo).0) <==> Good(n) && AllOutside(n, appendix, todo)
    decreases |todo|
  {
    if todo != [] {
      var a := todo[0];
      if Attachable(n, a.path) {
        var d := Descriptor(|appendix|, |a.content|);
        AttachSameRoot(n, a.path, d);
        if Good(n) { AttachKeepsGoodIff(n, a.path, |appendix|, |a.content|); }
        if Good(Attached(n, appendix, a)) { GoodBefore(n, a.path, d); }
        AllAttachedGoodIff(Attached(n, appendix, a), appendix + a.content, todo[1..]);
      } else {
        AllAttachedGoodIff(n, appendix, todo[1..]);
      }
    }
  }

  /** A container survives printing and reading after a list of attachments exactly when none of the
      performed ones goes to a descriptor or inside one. */
  lemma AttachmentsSurviveIff(root: Node, todo: seq<Attachment>)
    requires Good(root) && root.id == "root"
    ensures var (n, appendix) := AttachAll(root, "", todo);
            Reads(Serialized(n, appendix), n, appendix) <==> AllOutside(root, "", todo)
  {
    var (n, appendix) := AttachAll(root, "", todo);
    AllAttachedGoodIff(root, "", todo);
    RoundTripIff(n, appendix);
  }

  lemma {:induction false} OutsideEndsOutside(n: Node, path: seq<nat>)
    requires IsPath(n, path) && NoDescriptorOnWay(n, path) && n.id != BINARY
    ensures NodeAt(n, path).id != BINARY
    decreases path
  {
    if path != [] { OutsideEndsOutside(n.subs[path[0]], path[1..]); }
  }

  lemma {:induction false} OutsideAt(n: Node, appendix: string, todo: seq<Attachment>, k: nat)
    requires AllOutside(n, appendix, todo) && k < |todo| && n.id != BINARY
    requires Attachable(AttachAll(n, appendix, todo[..k]).0, todo[k].path)
    ensures NodeAt(AttachAll(n, appendix, todo[..k]).0, todo[k].path).id != BINARY
    decreases |todo|
  {
    var a, rest := todo[0], todo[1..];
    if k == 0 {
      assert todo[..0] == [];
      OutsideEndsOutside(n, a.path);
    } else {
      assert todo[..k][0] == a && todo[..k][1..] == rest[..k - 1];
      if Attachable(n, a.path) {
        AttachSameRoot(n, a.path, Descriptor(|appendix|, |a.content|));
        OutsideAt(Attached(n, appendix, a), appendix + a.content, rest, k - 1);
      } else {
        OutsideAt(n, appendix, rest, k - 1);
      }
    }
  }

  /** Printing and reading such a container gives back its tree and every attached binary. */
  lemma AttachmentsSurvive(root: Node, todo: seq<Attachment>, root': Node, appendix': string)
    requires Good(root) && root.id == "root" && TotalSize(todo) < WORD && AllOutside(root, "", todo)
    requires var (n, appendix) := AttachAll(root, "", todo); Reads(Serialized(n, appendix), root', appendix')
    ensures (root', appendix') == AttachAll(root, "", todo)
    ensures forall k | 0 <= k < |todo| && Attachable(AttachAll(root, "", todo[..k]).0, todo[k].path) ::
              IsPath(root', todo[k].path) && GetBinary(NodeAt(root', todo[k].path), appendix') == Found(todo[k].content)
  {
    var (n, appendix) := AttachAll(root, "", todo);
    AttachmentsSurviveIff(root, todo);
    ReadsUnique(Serialized(n, appendix), n, appendix, root', appendix');
    forall k | 0 <= k < |todo| && Attachable(AttachAll(root, "", todo[..k]).0, todo[k].path)
      ensures IsPath(root', todo[k].path) && GetBinary(NodeAt(root', todo[k].path), appendix') == Found(todo[k].content)
    {
      OutsideAt(root, "", todo, k);
      AllAttachedFound(root, "", todo, k);
    }
  }

  lemma ReadsUnique(s: string, n: Node, a: string, n': Node, a': string)
    requires Reads(s, n, a) && Reads(s, n', a')
    ensures n == n' && a == a'
  {
    var i: nat :| FirstAt(s, i) && n == RootOf(s[..i]) && a == s[i + |APPENDIX|..];
    var j: nat :| FirstAt(s, j) && n' == RootOf(s[..j]) && a' == s[j + |APPENDIX|..];
  }

  // ---------------------------------------------------------------------------------------------
  // The container object

  class Container {
    var root: Node
    var appendix: string

    constructor ()
      ensures root == Node([], [], "root") && appendix == ""
    {
      root, appendix := Node([], [], "root"), "";
    }

    /** The constructor from text; it throws when the appendix marker is missing. */
    method Read(text: string) returns (ok: bool)
      modifies this
      ensures ok <==> Contains(text, APPENDIX)
      ensures ok ==> Reads(text, root, appendix)
      ensures !ok ==> root == old(root) && appendix == old(appendix)
    {
      var i := Find(text, APPENDIX);
      NoLineBreakInMarker();
      if i == |text| {
        return false;
      }
      assert FirstAt(text, i);
      var lines := SplitLines(text[..i]);
      var r := ParseInterior(lines, 0, |lines|);
      root, appendix := Node(r.kvs, r.subs, "root"), text[i + |APPENDIX|..];
      ok := true;
    }

    method Serialize() returns (text: string)
      ensures text == Serialized(root, appendix)
      ensures Good(root) && root.id == "root" ==> Reads(text, root, appendix)
    {
      text := Text(NodeLines(root)) + APPENDIX + appendix;
      if Good(root) && root.id == "root" { RoundTrip(root, appendix); }
    }

    /** attach_binary_content: false if the node has an attachment already. */
    method AttachBinaryContent(path: seq<nat>, content: string) returns (ok: bool)
      requires IsPath(root, path) && |appendix + content| < WORD
      modifies this
      ensures ok <==> !old(HasBinary(NodeAt(root, path)))
      ensures !ok ==> root == old(root) && appendix == old(appendix)
      ensures ok ==>
              root == old(AttachAt(root, path, Descriptor(|appendix|, |content|)))
              && appendix == old(appendix) + content
      ensures ok ==>
                IsPath(root, path) &&
                (GetBinary(NodeAt(root, path), appendix) == Found(content) <==>
                 old(NodeAt(root, path)).id != BINARY
                   || Content(old(NodeAt(root, path)).kvs, appendix) == Found(content))
      ensures ok && old(Good(root)) ==> (Good(root) <==> old(NoDescriptorOnWay(root, path)))
    {
      ok := !HasBinary(NodeAt(root, path));
      if ok {
        AttachedFoundIff(root, path, appendix, content);
        if Good(root) { AttachKeepsGoodIff(root, path, |appendix|, |content|); }
        root := AttachAt(root, path, Descriptor(|appendix|, |content|));
        appendix := appendix + content;
      }
    }
  }
}
