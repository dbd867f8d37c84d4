/** Reading loses no line and invents none: whatever the parser makes of its lines, printing the result
    gives every line as often as it occurs up to the stopping point, and the parser stops only at a line
    that cannot be read
    (include/hipSYCL/common/hcf_container.hpp:270-327). */
module HcfAccounts {
  import opened HcfText
  import opened HcfParse

  // ---------------------------------------------------------------------------------------------
  // Counting lines

  function Times(lines: seq<string>, x: string): nat {
    if lines == [] then 0 else Times(lines[1..], x) + if lines[0] == x then 1 else 0
  }

  lemma {:induction false} TimesConcat(a: seq<string>, b: seq<string>, x: string)
    ensures Times(a + b, x) == Times(a, x) + Times(b, x)
  {
    if a == [] {
      assert a + b == b;
    } else {
      assert (a + b)[1..] == a[1..] + b;
      TimesConcat(a[1..], b, x);
    }
  }

  lemma TimesOne(l: string, x: string)
    ensures Times([l], x) == if l == x then 1 else 0
  {
    assert [l][1..] == [];
  }

  lemma TimesSplit(lines: seq<string>, i: nat, j: nat, k: nat, x: string)
    requires i <= j <= k <= |lines|
    ensures Times(lines[i..k], x) == Times(lines[i..j], x) + Times(lines[j..k], x)
  {
    assert lines[i..k] == lines[i..j] + lines[j..k];
    TimesConcat(lines[i..j], lines[j..k], x);
  }

  /** How often a line occurs in the printed contents of a node. */
  function Printed(kvs: seq<KeyValue>, subs: seq<Node>, x: string): nat {
    Times(KvLines(kvs), x) + Times(SubLines(subs), x)
  }

  // ---------------------------------------------------------------------------------------------
  // Pairs and nodes that are read

  lemma PairPrinted(kvs: seq<KeyValue>, subs: seq<Node>, line: string, x: string)
    requires '=' in line
    ensures Printed(kvs + [SplitLine(line)], subs, x) == Printed(kvs, subs, x) + if line == x then 1 else 0
  {
    var i := IndexOf(line, '=');
    IndexOfIsFirst(line, '=');
    assert line[..i] + ['='] + line[i + 1..] == line;
    KvLinesAppend(kvs, SplitLine(line));
    TimesConcat(KvLines(kvs), [line], x);
    TimesOne(line, x);
  }

  lemma StartIsPrinted(line: string)
    requires IsStart(line) && Trimmed(line)
    ensures START + NodeId(line) == line
  {
    var rest := line[2..];
    assert START + rest == line;
    TrimRightOfText(rest);
  }

  lemma TrimRightOfText(s: string)
    requires s == "" || !IsSpace(s[|s| - 1])
    ensures TrimRight(s) == s
  {
  }

  lemma NodeTimes(s: Node, x: string)
    ensures Times([START + s.id] + NodeLines(s) + [END + s.id], x) ==
            Printed(s.kvs, s.subs, x) + (if START + s.id == x then 1 else 0) + (if END + s.id == x then 1 else 0)
  {
    TimesConcat([START + s.id] + NodeLines(s), [END + s.id], x);
    TimesConcat([START + s.id], NodeLines(s), x);
    TimesConcat(KvLines(s.kvs), SubLines(s.subs), x);
    TimesOne(START + s.id, x);
    TimesOne(END + s.id, x);
  }

  lemma NodePrinted(kvs: seq<KeyValue>, subs: seq<Node>, s: Node, x: string)
    ensures Printed(kvs, subs + [s], x) == Printed(kvs, subs, x) + Printed(s.kvs, s.subs, x)
                                           + (if START + s.id == x then 1 else 0) + (if END + s.id == x then 1 else 0)
  {
    SubLinesAppend(subs, s);
    TimesConcat(SubLines(subs), [START + s.id] + NodeLines(s) + [END + s.id], x);
    NodeTimes(s, x);
  }

  // ---------------------------------------------------------------------------------------------
  // Lines that cannot be read

  ghost predicate NoMarker(lines: seq<string>, i: nat, end: nat, m: string) {
    end <= |lines| && forall k :: i <= k < end ==> lines[k] != m
  }

  ghost predicate FirstMarker(lines: seq<string>, i: nat, end: nat, m: string, k: nat) {
    i <= k < end <= |lines| && lines[k] == m && NoMarker(lines, i, k, m)
  }

  lemma {:induction false} MarkerIsFirst(lines: seq<string>, i: nat, end: nat, m: string)
    requires i <= end <= |lines|
    ensures var j := MarkerFrom(lines, i, end, m);
            if j == end then NoMarker(lines, i, end, m) else FirstMarker(lines, i, end, m, j)
    decreases end - i
  {
    if i < end && lines[i] != m { MarkerIsFirst(lines, i + 1, end, m); }
  }

  /** Line `j` cannot be read: a start line whose end line is missing or whose contents cannot be read, or a line
      that is neither a start line nor a pair. */
  ghost predicate Stuck(lines: seq<string>, j: nat, end: nat)
    requires end <= |lines|
  {
    j < end && if IsStart(lines[j]) then StuckNode(lines, j + 1, end, END + NodeId(lines[j])) else '=' !in lines[j]
  }

  ghost predicate StuckNode(lines: seq<string>, i: nat, end: nat, m: string) {
    NoMarker(lines, i, end, m) || exists k: nat :: FirstMarker(lines, i, end, m, k) && !Parse(lines, i, k, [], []).ok
  }

  // ---------------------------------------------------------------------------------------------
  // All lines

  /** The result holds what was there before and each line as often as it occurs before the stopping point `j`. */
  ghost predicate Accounts(
    lines: seq<string>, i: nat, end: nat, kvs: seq<KeyValue>, subs: seq<Node>, r: Parsed, j: nat) {
    && i <= j <= end <= |lines| && (if r.ok then j == end else Stuck(lines, j, end))
    && forall x :: Printed(r.kvs, r.subs, x) == Printed(kvs, subs, x) + Times(lines[i..j], x)
  }

  lemma NothingRead(lines: seq<string>, i: nat, end: nat, kvs: seq<KeyValue>, subs: seq<Node>)
    requires i <= end <= |lines| && (i < end ==> Stuck(lines, i, end))
    ensures Accounts(lines, i, end, kvs, subs, Parsed(kvs, subs, i == end), i)
  {
    assert lines[i..i] == [];
  }

  lemma PairFirst(lines: seq<string>, i: nat, end: nat, kvs: seq<KeyValue>, subs: seq<Node>, r: Parsed, j: nat)
    requires i < end <= |lines| && '=' in lines[i]
    requires Accounts(lines, i + 1, end, kvs + [SplitLine(lines[i])], subs, r, j)
    ensures Accounts(lines, i, end, kvs, subs, r, j)
  {
    forall x ensures Printed(r.kvs, r.subs, x) == Printed(kvs, subs, x) + Times(lines[i..j], x) {
      PairPrinted(kvs, subs, lines[i], x);
      TimesSplit(lines, i, i + 1, j, x);
      assert lines[i..i + 1] == [lines[i]];
      TimesOne(lines[i], x);
    }
  }

  lemma NodeFirst(
    lines: seq<string>, i: nat, e: nat, end: nat, kvs: seq<KeyValue>, subs: seq<Node>, sub: Node, r: Parsed, j: nat)
    requires i < e < end <= |lines| && IsStart(lines[i]) && Trimmed(lines[i])
    requires sub.id == NodeId(lines[i]) && lines[e] == END + sub.id
    requires forall x :: Printed(sub.kvs, sub.subs, x) == Times(lines[i + 1..e], x)
    requires Accounts(lines, e + 1, end, kvs, subs + [sub], r, j)
    ensures Accounts(lines, i, end, kvs, subs, r, j)
  {
    StartIsPrinted(lines[i]);
    forall x ensures Printed(r.kvs, r.subs, x) == Printed(kvs, subs, x) + Times(lines[i..j], x) {
      NodePrinted(kvs, subs, sub, x);
      TimesSplit(lines, i, e + 1, j, x);
      NodeLineTimes(lines, i, e, x);
    }
  }

  lemma NodeLineTimes(lines: seq<string>, i: nat, e: nat, x: string)
    requires i < e < |lines|
    ensures Times(lines[i..e + 1], x) ==
            Times(lines[i + 1..e], x) + (if lines[i] == x then 1 else 0) + (if lines[e] == x then 1 else 0)
  {
    TimesSplit(lines, i, i + 1, e + 1, x);
    TimesSplit(lines, i + 1, e, e + 1, x);
    assert lines[i..i + 1] == [lines[i]] && lines[e..e + 1] == [lines[e]];
    TimesOne(lines[i], x);
    TimesOne(lines[e], x);
  }

  /** Reading a node whose contents can be read goes on behind it. */
  lemma ParseOverNode(lines: seq<string>, i: nat, e: nat, end: nat, kvs: seq<KeyValue>, subs: seq<Node>, inner: Parsed)
    requires i < end <= |lines| && IsStart(lines[i]) && e == MarkerFrom(lines, i + 1, end, END + NodeId(lines[i])) < end
    requires inner == Parse(lines, i + 1, e, [], []) && inner.ok
    ensures Parse(lines, i, end, kvs, subs) ==
            Parse(lines, e + 1, end, kvs, subs + [Node(inner.kvs, inner.subs, NodeId(lines[i]))])
  {
  }

  /** Whatever the lines, the parser reads them up to a stopping point, which is the end exactly when it succeeds. */
  lemma {:induction false} ParseAccounts(lines: seq<string>, i: nat, end: nat, kvs: seq<KeyValue>, subs: seq<Node>)
    returns (r: Parsed, j: nat)
    requires i <= end <= |lines| && forall k :: i <= k < end ==> Trimmed(lines[k])
    ensures r == Parse(lines, i, end, kvs, subs) && Accounts(lines, i, end, kvs, subs, r, j)
    decreases end - i, 1
  {
    if i < end && IsStart(lines[i]) {
      r, j := NodeAccounts(lines, i, end, kvs, subs);
    } else if i < end && '=' in lines[i] {
      r, j := ParseAccounts(lines, i + 1, end, kvs + [SplitLine(lines[i])], subs);
      PairFirst(lines, i, end, kvs, subs, r, j);
    } else {
      NothingRead(lines, i, end, kvs, subs);
      r, j := Parsed(kvs, subs, i == end), i;
    }
  }

  lemma {:induction false} NodeAccounts(lines: seq<string>, i: nat, end: nat, kvs: seq<KeyValue>, subs: seq<Node>)
    returns (r: Parsed, j: nat)
    requires i < end <= |lines| && (forall k :: i <= k < end ==> Trimmed(lines[k])) && IsStart(lines[i])
    ensures r == Parse(lines, i, end, kvs, subs) && Accounts(lines, i, end, kvs, subs, r, j)
    decreases end - i, 0
  {
    var m := END + NodeId(lines[i]);
    var e := MarkerFrom(lines, i + 1, end, m);
    MarkerIsFirst(lines, i + 1, end, m);
    r, j := Parsed(kvs, subs, false), i;
    if e == end {
      NothingRead(lines, i, end, kvs, subs);
    } else {
      var inner, inside := ParseAccounts(lines, i + 1, e, [], []);
      if inner.ok {
        var sub := Node(inner.kvs, inner.subs, NodeId(lines[i]));
        ParseOverNode(lines, i, e, end, kvs, subs, inner);
        r, j := ParseAccounts(lines, e + 1, end, kvs, subs + [sub]);
        NodeFirst(lines, i, e, end, kvs, subs, sub, r, j);
      } else {
        NothingRead(lines, i, end, kvs, subs);
      }
    }
  }
}
