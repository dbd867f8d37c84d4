/** The node tree of an HCF container, its lines, and the parser
    (include/hipSYCL/common/hcf_container.hpp). */
module HcfParse {
  import opened HcfText

  const START: string := "{."
  const END: string := "}."

  datatype KeyValue = KeyValue(key: string, value: string)
  datatype Node = Node(kvs: seq<KeyValue>, subs: seq<Node>, id: string)

  // ---------------------------------------------------------------------------------------------
  // serialize_node

  function KvLine(kv: KeyValue): string {
    kv.key + ['='] + kv.value
  }

  function KvLines(kvs: seq<KeyValue>): seq<string> {
    if kvs == [] then [] else [KvLine(kvs[0])] + KvLines(kvs[1..])
  }

  function NodeLines(n: Node): seq<string>
    decreases n
  {
    KvLines(n.kvs) + SubLines(n.subs)
  }

  function SubLines(subs: seq<Node>): seq<string>
    decreases subs
  {
    if subs == [] then []
    else [START + subs[0].id] + NodeLines(subs[0]) + [END + subs[0].id] + SubLines(subs[1..])
  }

  // ---------------------------------------------------------------------------------------------
  // parse_node_interior

  /** What parsing leaves in a node: contents read so far, and whether all lines were accepted. */
  datatype Parsed = Parsed(kvs: seq<KeyValue>, subs: seq<Node>, ok: bool)

  function IndexOf(s: string, c: char): (i: nat)
    ensures i <= |s| && (c in s ==> i < |s|)
  {
    if s == "" || s[0] == c then 0 else 1 + IndexOf(s[1..], c)
  }

  lemma {:induction false} IndexOfIsFirst(s: string, c: char)
    ensures var i := IndexOf(s, c); c !in s[..i] && (i < |s| ==> s[i] == c)
  {
    if s != "" && s[0] != c {
      IndexOfIsFirst(s[1..], c);
      var i := IndexOf(s, c);
      assert s[..i] == [s[0]] + s[1..][..i - 1];
    }
  }

  predicate IsStart(line: string) {
    START <= line
  }

  /** parse_node_start. */
  function NodeId(line: string): string
    requires IsStart(line)
  {
    TrimRight(line[2..])
  }

  /** The key-value pair of a line: split at the first equals sign. */
  function SplitLine(line: string): KeyValue
    requires '=' in line
  {
    KeyValue(line[..IndexOf(line, '=')], line[IndexOf(line, '=') + 1..])
  }

  /** The first line from `i` on that equals `m`, or `end`. */
  function MarkerFrom(lines: seq<string>, i: nat, end: nat, m: string): (j: nat)
    requires i <= end <= |lines|
    ensures i <= j <= end
    decreases end - i
  {
    if i == end || lines[i] == m then i else MarkerFrom(lines, i + 1, end, m)
  }

  /** Parsing lines `i` to `end` into a node that already holds `kvs` and `subs`. */
  function Parse(lines: seq<string>, i: nat, end: nat, kvs: seq<KeyValue>, subs: seq<Node>): Parsed
    requires i <= end <= |lines|
    decreases end - i
  {
    if i == end then Parsed(kvs, subs, true)
    else if IsStart(lines[i]) then
      var id := NodeId(lines[i]);
      var j := MarkerFrom(lines, i + 1, end, END + id);
      if j == end then Parsed(kvs, subs, false)
      else
        var inner := Parse(lines, i + 1, j, [], []);
        if !inner.ok then Parsed(kvs, subs, false)
        else Parse(lines, j + 1, end, kvs, subs + [Node(inner.kvs, inner.subs, id)])
    else if '=' in lines[i] then Parse(lines, i + 1, end, kvs + [SplitLine(lines[i])], subs)
    else Parsed(kvs, subs, false)
  }

  /** The search for the end marker of a node. */
  method FindMarker(lines: seq<string>, from: nat, end: nat, m: string) returns (j: nat)
    requires from <= end <= |lines|
    ensures j == MarkerFrom(lines, from, end, m)
  {
    j := from;
    while j < end && lines[j] != m
      invariant from <= j <= end
      invariant MarkerFrom(lines, from, end, m) == MarkerFrom(lines, j, end, m)
    {
      j := j + 1;
    }
  }

  /** parse_node_interior on the lines from `start` to `end`. */
  method ParseInterior(lines: seq<string>, start: nat, end: nat) returns (r: Parsed)
    requires start <= end <= |lines|
    ensures r == Parse(lines, start, end, [], [])
    decreases end - start
  {
    var kvs, subs := [], [];
    var i := start;
    while i < end
      invariant start <= i <= end
      invariant Parse(lines, start, end, [], []) == Parse(lines, i, end, kvs, subs)
    {
      if IsStart(lines[i]) {
        var id := NodeId(lines[i]);
        var j := FindMarker(lines, i + 1, end, END + id);
        if j == end {
          return Parsed(kvs, subs, false);
        }
        var inner := ParseInterior(lines, i + 1, j);
        if !inner.ok {
          return Parsed(kvs, subs, false);
        }
        subs := subs + [Node(inner.kvs, inner.subs, id)];
        i := j + 1;
      } else if '=' in lines[i] {
        kvs := kvs + [SplitLine(lines[i])];
        i := i + 1;
      } else {
        return Parsed(kvs, subs, false);
      }
    }
    r := Parsed(kvs, subs, true);
  }

  // ---------------------------------------------------------------------------------------------
  // Trees that can be printed and parsed

  /** Text without line breaks and without the appendix marker. */
  ghost predicate Plain(s: string) {
    OneLine(s) && !Contains(s, APPENDIX)
  }

  predicate NoTrailingSpace(s: string) {
    s != "" ==> !IsSpace(s[|s| - 1])
  }

  ghost predicate GoodPair(kv: KeyValue) {
    && Plain(kv.key) && Plain(kv.value) && NoTrailingSpace(kv.value)
    && '=' !in kv.key && (kv.key != "" ==> !IsSpace(kv.key[0])) && !IsStart(kv.key)
  }

  /** All strings survive, and no line inside a node looks like the end of the node. */
  ghost predicate Good(n: Node)
    decreases n, 0
  {
    && (forall kv :: kv in n.kvs ==> GoodPair(kv))
    && (forall s :: s in n.subs ==> GoodSub(s))
  }

  ghost predicate GoodSub(s: Node)
    decreases s, 1
  {
    Plain(s.id) && NoTrailingSpace(s.id) && Good(s) && END + s.id !in NodeLines(s)
  }

  // ---------------------------------------------------------------------------------------------
  // Good trees survive

  lemma PairLine(kv: KeyValue)
    requires GoodPair(kv)
    ensures !IsStart(KvLine(kv)) && '=' in KvLine(kv) && SplitLine(KvLine(kv)) == kv
  {
    var l, k := KvLine(kv), |kv.key|;
    FirstSplit(kv.key, '=', kv.value);
    assert l[k] == '=' && l[..k] == kv.key && l[k + 1..] == kv.value;
    if k >= 2 {
      assert l[..2] == kv.key[..2];
    } else {
      assert START[0] == '{' && START[1] == '.' && l[k] == '=';
    }
  }

  lemma {:induction false} FirstSplit(a: string, c: char, b: string)
    requires c !in a
    ensures IndexOf(a + [c] + b, c) == |a|
  {
    if a != "" {
      assert a[0] in a;
      assert (a + [c] + b)[1..] == a[1..] + [c] + b;
      FirstSplit(a[1..], c, b);
    }
  }

  lemma {:induction false} KvLinesAt(kvs: seq<KeyValue>, k: nat)
    requires k < |kvs|
    ensures |KvLines(kvs)| == |kvs| && KvLines(kvs)[k] == KvLine(kvs[k])
  {
    if |kvs| > 1 { KvLinesAt(kvs[1..], if k > 0 then k - 1 else 0); }
  }

  lemma {:induction false} ParsePairs(
    lines: seq<string>, i: nat, end: nat, ps: seq<KeyValue>, kvs: seq<KeyValue>, subs: seq<Node>)
    requires i + |ps| <= end <= |lines| && (forall k :: 0 <= k < |ps| ==>
             GoodPair(ps[k]) && lines[i + k] == KvLine(ps[k]))
    ensures Parse(lines, i, end, kvs, subs) == Parse(lines, i + |ps|, end, kvs + ps, subs)
    decreases |ps|
  {
    if ps == [] {
      assert kvs + ps == kvs;
    } else {
      assert lines[i + 0] == KvLine(ps[0]);
      PairLine(ps[0]);
      ParsePairs(lines, i + 1, end, ps[1..], kvs + [ps[0]], subs);
      assert kvs + [ps[0]] + ps[1..] == kvs + ps;
    }
  }

  lemma StartLine(id: string)
    requires NoTrailingSpace(id)
    ensures IsStart(START + id) && NodeId(START + id) == id
  {
    assert (START + id)[2..] == id;
    assert id[..|id|] == id;
  }

  lemma {:induction false} FirstMarker(lines: seq<string>, i: nat, j: nat, end: nat, m: string)
    requires i <= j < end <= |lines| && m !in lines[i..j] && lines[j] == m
    ensures MarkerFrom(lines, i, end, m) == j
    decreases j - i
  {
    if i < j {
      assert lines[i] == lines[i..j][0];
      assert lines[i + 1..j] == lines[i..j][1..];
      FirstMarker(lines, i + 1, j, end, m);
    }
  }

  /** Reading a subnode whose interior is at lines `i + 1` to `j`. */
  lemma ParseSub(lines: seq<string>, i: nat, j: nat, end: nat, s: Node, kvs: seq<KeyValue>, subs: seq<Node>)
    requires i < j < end <= |lines| && lines[i] == START + s.id && lines[i + 1..j] == NodeLines(s)
    requires lines[j] == END + s.id
    requires GoodSub(s) && Parse(lines, i + 1, j, [], []) == Parsed(s.kvs, s.subs, true)
    ensures Parse(lines, i, end, kvs, subs) == Parse(lines, j + 1, end, kvs, subs + [s])
  {
    StartLine(s.id);
    FirstMarker(lines, i + 1, j, end, END + s.id);
  }

  lemma NodeLinesAt(lines: seq<string>, i: nat, end: nat, n: Node)
    requires i <= end <= |lines| && lines[i..end] == NodeLines(n)
    ensures i + |n.kvs| <= end && lines[i + |n.kvs|..end] == SubLines(n.subs)
    ensures forall l :: 0 <= l < |n.kvs| ==> lines[i + l] == KvLine(n.kvs[l])
  {
    var k := |n.kvs|;
    KvLinesLength(n.kvs);
    forall l | 0 <= l < k ensures lines[i + l] == KvLine(n.kvs[l]) {
      KvLinesAt(n.kvs, l);
      assert lines[i + l] == lines[i..end][l];
    }
    PartOfPart(lines, i, end, k, end - i);
    assert NodeLines(n)[k..] == SubLines(n.subs);
  }

  lemma ParseNodePairs(lines: seq<string>, i: nat, end: nat, n: Node)
    requires i <= end <= |lines| && lines[i..end] == NodeLines(n) && forall kv :: kv in n.kvs ==> GoodPair(kv)
    ensures i + |n.kvs| <= end && lines[i + |n.kvs|..end] == SubLines(n.subs)
    ensures Parse(lines, i, end, [], []) == Parse(lines, i + |n.kvs|, end, n.kvs, [])
  {
    NodeLinesAt(lines, i, end, n);
    ParsePairs(lines, i, end, n.kvs, [], []);
    assert [] + n.kvs == n.kvs;
  }

  /** Parsing the lines of a good tree gives back the tree. */
  lemma {:induction false} ParseNode(lines: seq<string>, i: nat, end: nat, n: Node)
    requires i <= end <= |lines| && lines[i..end] == NodeLines(n) && Good(n)
    ensures Parse(lines, i, end, [], []) == Parsed(n.kvs, n.subs, true)
    decreases n, 0
  {
    ParseNodePairs(lines, i, end, n);
    ParseSubs(lines, i + |n.kvs|, end, n.subs, n.kvs, []);
    assert [] + n.subs == n.subs;
  }

  lemma {:induction false} KvLinesLength(kvs: seq<KeyValue>)
    ensures |KvLines(kvs)| == |kvs|
  {
    if kvs != [] { KvLinesLength(kvs[1..]); }
  }

  lemma Layout<T>(ls: seq<T>, a: T, inner: seq<T>, b: T, rest: seq<T>)
    requires ls == [a] + inner + [b] + rest
    ensures var n := |inner|; ls[0] == a && ls[1..1 + n] == inner && ls[1 + n] == b && ls[2 + n..|ls|] == rest
  {
    var n := |inner|;
    assert ls == ([a] + inner + [b]) + rest;
    assert ls[1..1 + n] == inner;
    assert |[a] + inner + [b]| == 2 + n;
    assert ls[2 + n..] == rest;
  }

  /** Where the lines of the first of several subnodes are. */
  lemma SubLinesAt(lines: seq<string>, i: nat, end: nat, subs: seq<Node>) returns (j: nat)
    requires i <= end <= |lines| && lines[i..end] == SubLines(subs) && subs != []
    ensures i < j < end && lines[i] == START + subs[0].id && lines[i + 1..j] == NodeLines(subs[0])
    ensures lines[j] == END + subs[0].id && lines[j + 1..end] == SubLines(subs[1..])
  {
    var s, inner := subs[0], NodeLines(subs[0]);
    var n := |inner|;
    j := i + 1 + n;
    var ls := lines[i..end];
    assert ls == [START + s.id] + inner + [END + s.id] + SubLines(subs[1..]);
    Layout(ls, START + s.id, inner, END + s.id, SubLines(subs[1..]));
    assert ls[0] == lines[i] && ls[1 + n] == lines[j];
    PartOfPart(lines, i, end, 1, 1 + n);
    PartOfPart(lines, i, end, 2 + n, |ls|);
  }

  lemma {:induction false} ParseFirstSub(
    lines: seq<string>, i: nat, end: nat, ss: seq<Node>, kvs: seq<KeyValue>, subs: seq<Node>)
    returns (j: nat)
    requires i <= end <= |lines| && lines[i..end] == SubLines(ss) && ss != [] && GoodSub(ss[0])
    ensures i < j < end && lines[j + 1..end] == SubLines(ss[1..])
    ensures Parse(lines, i, end, kvs, subs) == Parse(lines, j + 1, end, kvs, subs + [ss[0]])
    decreases ss, 0
  {
    j := SubLinesAt(lines, i, end, ss);
    ParseNode(lines, i + 1, j, ss[0]);
    ParseSub(lines, i, j, end, ss[0], kvs, subs);
  }

  lemma {:induction false} ParseSubs(
    lines: seq<string>, i: nat, end: nat, ss: seq<Node>, kvs: seq<KeyValue>, subs: seq<Node>)
    requires i <= end <= |lines| && lines[i..end] == SubLines(ss) && forall s :: s in ss ==> GoodSub(s)
    ensures Parse(lines, i, end, kvs, subs) == Parsed(kvs, subs + ss, true)
    decreases ss, 1
  {
    Regroup(subs, ss);
    if ss == [] {
      assert |lines[i..end]| == 0;
    } else {
      var j := ParseFirstSub(lines, i, end, ss, kvs, subs);
      ParseSubs(lines, j + 1, end, ss[1..], kvs, subs + [ss[0]]);
    }
  }

  lemma Regroup<T>(a: seq<T>, b: seq<T>)
    ensures if b == [] then a + b == a else a + [b[0]] + b[1..] == a + b
  {
  }

  // ---------------------------------------------------------------------------------------------
  // Only good trees can come out of the parser

  ghost predicate GoodLine(l: string) {
    Trimmed(l) && Plain(l)
  }

  /** A part of a plain string is plain. */
  lemma PlainPart(s: string, lo: nat, hi: nat)
    requires Plain(s) && lo <= hi <= |s|
    ensures Plain(s[lo..hi])
  {
    if Contains(s[lo..hi], APPENDIX) { PartContains(s, lo, hi, APPENDIX); }
  }

  lemma SplitIsGood(l: string)
    requires GoodLine(l) && !IsStart(l) && '=' in l
    ensures GoodPair(SplitLine(l)) && KvLine(SplitLine(l)) == l
  {
    var i := IndexOf(l, '=');
    IndexOfIsFirst(l, '=');
    PlainPart(l, 0, i);
    PlainPart(l, i + 1, |l|);
    var k, v := l[..i], l[i + 1..];
    assert k == l[0..i] && v == l[i + 1..|l|];
    assert k + ['='] + v == l;
    assert k != "" ==> k[0] == l[0];
    assert v != "" ==> v[|v| - 1] == l[|l| - 1];
  }

  lemma StartIsGood(l: string)
    requires GoodLine(l) && IsStart(l)
    ensures Plain(NodeId(l)) && NoTrailingSpace(NodeId(l)) && START + NodeId(l) == l
  {
    assert NodeId(l) == l[2..|l|] by {
      assert l[2..][..|l[2..]|] == l[2..|l|];
    }
    PlainPart(l, 2, |l|);
  }

  lemma {:induction false} KvLinesAppend(kvs: seq<KeyValue>, kv: KeyValue)
    ensures KvLines(kvs + [kv]) == KvLines(kvs) + [KvLine(kv)]
  {
    if kvs != [] {
      assert (kvs + [kv])[1..] == kvs[1..] + [kv];
      KvLinesAppend(kvs[1..], kv);
    }
  }

  lemma {:induction false} SubLinesAppend(subs: seq<Node>, s: Node)
    ensures SubLines(subs + [s]) == SubLines(subs) + ([START + s.id] + NodeLines(s) + [END + s.id])
  {
    if subs == [] {
      assert (subs + [s])[1..] == [];
    } else {
      assert (subs + [s])[1..] == subs[1..] + [s];
      SubLinesAppend(subs[1..], s);
    }
  }

  /** A good tree all of whose lines are among the given ones. */
  ghost predicate GoodAmong(kvs: seq<KeyValue>, subs: seq<Node>, allowed: set<string>) {
    && Good(Node(kvs, subs, ""))
    && (forall l :: l in KvLines(kvs) ==> l in allowed) && (forall l :: l in SubLines(subs) ==> l in allowed)
  }

  lemma AddPair(kvs: seq<KeyValue>, subs: seq<Node>, kv: KeyValue, allowed: set<string>)
    requires GoodAmong(kvs, subs, allowed) && GoodPair(kv) && KvLine(kv) in allowed
    ensures GoodAmong(kvs + [kv], subs, allowed)
  {
    KvLinesAppend(kvs, kv);
  }

  lemma AddSub(kvs: seq<KeyValue>, subs: seq<Node>, s: Node, inside: set<string>, allowed: set<string>)
    requires GoodAmong(kvs, subs, allowed) && GoodAmong(s.kvs, s.subs, inside) && inside <= allowed
    requires Plain(s.id) && NoTrailingSpace(s.id) && START + s.id in allowed && END + s.id in allowed
    requires END + s.id !in inside
    ensures GoodAmong(kvs, subs + [s], allowed)
  {
    SubLinesAppend(subs, s);
    assert forall l :: l in NodeLines(s) ==> l in inside;
    assert GoodSub(s);
  }

  ghost function LineSet(lines: seq<string>, i: nat, end: nat): set<string>
    requires i <= end <= |lines|
  {
    set k | i <= k < end :: lines[k]
  }

  lemma {:induction false} NoMarkerBefore(lines: seq<string>, i: nat, end: nat, m: string)
    requires i <= end <= |lines|
    ensures var j := MarkerFrom(lines, i, end, m); m !in LineSet(lines, i, j) && (j < end ==> lines[j] == m)
    decreases end - i
  {
    if i < end && lines[i] != m { NoMarkerBefore(lines, i + 1, end, m); }
  }

  /** Whatever is parsed, completely or not, is a good tree whose lines come from the input. */
  lemma {:induction false} ParsedIsGood(
    lines: seq<string>, i: nat, end: nat, kvs: seq<KeyValue>, subs: seq<Node>, allowed: set<string>)
    requires i <= end <= |lines| && (forall k :: i <= k < end ==> GoodLine(lines[k]))
    requires GoodAmong(kvs, subs, allowed) && LineSet(lines, i, end) <= allowed
    ensures var r := Parse(lines, i, end, kvs, subs); GoodAmong(r.kvs, r.subs, allowed)
    decreases end - i
  {
    if i < end {
      assert lines[i] in LineSet(lines, i, end);
      if IsStart(lines[i]) {
        var j := MarkerFrom(lines, i + 1, end, END + NodeId(lines[i]));
        if j < end {
          ParsedIsGood(lines, i + 1, j, [], [], LineSet(lines, i + 1, j));
          var inner := Parse(lines, i + 1, j, [], []);
          var s := Node(inner.kvs, inner.subs, NodeId(lines[i]));
          AddParsedSub(lines, i, j, end, s, kvs, subs, allowed);
          if inner.ok { ParsedIsGood(lines, j + 1, end, kvs, subs + [s], allowed); }
        }
      } else if '=' in lines[i] {
        SplitIsGood(lines[i]);
        AddPair(kvs, subs, SplitLine(lines[i]), allowed);
        ParsedIsGood(lines, i + 1, end, kvs + [SplitLine(lines[i])], subs, allowed);
      }
    }
  }

  lemma AddParsedSub(
    lines: seq<string>, i: nat, j: nat, end: nat, s: Node, kvs: seq<KeyValue>, subs: seq<Node>, allowed: set<string>)
    requires i < end <= |lines| && GoodLine(lines[i]) && IsStart(lines[i]) && s.id == NodeId(lines[i])
    requires j == MarkerFrom(lines, i + 1, end, END + s.id) < end
    requires GoodAmong(kvs, subs, allowed) && LineSet(lines, i, end) <= allowed
    requires GoodAmong(s.kvs, s.subs, LineSet(lines, i + 1, j))
    ensures GoodAmong(kvs, subs + [s], allowed)
  {
    StartIsGood(lines[i]);
    NoMarkerBefore(lines, i + 1, end, END + s.id);
    assert lines[i] in LineSet(lines, i, end) && lines[j] in LineSet(lines, i, end);
    AddSub(kvs, subs, s, LineSet(lines, i + 1, j), allowed);
  }
}
