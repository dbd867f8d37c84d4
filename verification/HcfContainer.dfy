/** The container: printing, reading, and binary attachments
    (include/hipSYCL/common/hcf_container.hpp). */
module HcfContainer {
  import opened Words
  import opened HcfText
  import opened HcfParse

  // ---------------------------------------------------------------------------------------------
  // serialize and the reading constructor

  function Serialized(root: Node, binary: string): string {
    Text(NodeLines(root)) + APPENDIX + binary
  }

  /** The text of a small container, letter by letter: a pair, an empty node, the marker and the binary data. */
  lemma SmallText(key: string, value: string, id: string, binary: string)
    ensures Serialized(Node([KeyValue(key, value)], [Node([], [], id)], "root"), binary) ==
            key + "=" + value + "\n" + "{." + id + "\n" + "}." + id + "\n" + "__acpp_hcf_binary_appendix" + binary
  {
    var kv, sub := KeyValue(key, value), Node([], [], id);
    assert [kv][1..] == [] && [sub][1..] == [];
    assert KvLines([kv]) == [KvLine(kv)] + KvLines([]) == [KvLine(kv)];
    assert NodeLines(sub) == [] + SubLines([]) == [];
    assert SubLines([sub]) == [START + id] + [] + [END + id] + SubLines([]) == [START + id, END + id];
    var lines := [KvLine(kv), START + id, END + id];
    assert NodeLines(Node([kv], [sub], "root")) == lines;
    ThreeLines(KvLine(kv), START + id, END + id);
  }

  lemma ThreeLines(a: string, b: string, c: string)
    ensures Text([a, b, c]) == a + "\n" + b + "\n" + c + "\n"
  {
    assert [a, b, c][1..] == [b, c] && [b, c][1..] == [c] && [c][1..] == [];
    assert Text([c]) == c + "\n";
    assert Text([b, c]) == b + "\n" + (c + "\n");
  }

  /** The root node that parse leaves for a text; a syntax error leaves what was read before it. */
  function RootOf(data: string): Node {
    var ls := Clean(LinesFrom(data, 0));
    var r := Parse(ls, 0, |ls|, [], []);
    Node(r.kvs, r.subs, "root")
  }

  /** The appendix marker is first found at `i`. */
  ghost predicate FirstAt(s: string, i: nat) {
    OccursAt(s, APPENDIX, i) && forall k :: OccursAt(s, APPENDIX, k) ==> k >= i
  }

  /** Reading `s` gives the tree `root` and the binary data `binary`. */
  ghost predicate Reads(s: string, root: Node, binary: string) {
    exists i: nat :: FirstAt(s, i) && root == RootOf(s[..i]) && binary == s[i + |APPENDIX|..]
  }

  lemma NoLineBreakInMarker()
    ensures OneLine(APPENDIX) && |APPENDIX| == 26 && '=' !in APPENDIX && '.' !in APPENDIX
  {
  }

  /** The lines of a good pair, of a node start and of a node end are good. */
  lemma PairLineIsGood(kv: KeyValue)
    requires GoodPair(kv)
    ensures GoodLine(KvLine(kv))
  {
    NoLineBreakInMarker();
    var l := KvLine(kv);
    if Contains(l, APPENDIX) { SeparatedContains(kv.key, '=', kv.value, APPENDIX); }
    assert l[0] == if kv.key == "" then '=' else kv.key[0];
    assert l[|l| - 1] == if kv.value == "" then '=' else kv.value[|kv.value| - 1];
  }

  lemma MarkerLineIsGood(bracket: char, id: string)
    requires Plain(id) && NoTrailingSpace(id) && !IsSpace(bracket)
    ensures GoodLine([bracket] + ['.'] + id)
  {
    NoLineBreakInMarker();
    var l := [bracket] + ['.'] + id;
    if Contains(l, APPENDIX) { SeparatedContains([bracket], '.', id, APPENDIX); }
    assert l[|l| - 1] == if id == "" then '.' else id[|id| - 1];
  }

  lemma {:induction false} PairLinesAreGood(kvs: seq<KeyValue>, l: string)
    requires (forall kv :: kv in kvs ==> GoodPair(kv)) && l in KvLines(kvs)
    ensures GoodLine(l)
  {
    if l == KvLine(kvs[0]) { PairLineIsGood(kvs[0]); } else { PairLinesAreGood(kvs[1..], l); }
  }

  lemma {:induction false} NodeLinesAreGood(n: Node, l: string)
    requires Good(n) && l in NodeLines(n)
    ensures GoodLine(l)
    decreases n
  {
    if l in KvLines(n.kvs) { PairLinesAreGood(n.kvs, l); } else { SubLinesAreGood(n.subs, l); }
  }

  lemma {:induction false} SubLinesAreGood(subs: seq<Node>, l: string)
    requires (forall s :: s in subs ==> GoodSub(s)) && l in SubLines(subs)
    ensures GoodLine(l)
    decreases subs
  {
    var s := subs[0];
    assert GoodSub(s);
    if l == START + s.id {
      assert START + s.id == ['{'] + ['.'] + s.id;
      MarkerLineIsGood('{', s.id);
    } else if l == END + s.id {
      assert END + s.id == ['}'] + ['.'] + s.id;
      MarkerLineIsGood('}', s.id);
    } else if l in NodeLines(s) {
      NodeLinesAreGood(s, l);
    } else {
      SubLinesAreGood(subs[1..], l);
    }
  }

  /** The text of good lines ends where the marker begins. */
  lemma MarkerFollowsText(lines: seq<string>, binary: string)
    requires forall l :: l in lines ==> GoodLine(l)
    ensures FirstAt(Text(lines) + APPENDIX + binary, |Text(lines)|)
  {
    NoLineBreakInMarker();
    var t := Text(lines);
    var s := t + APPENDIX + binary;
    assert s[|t|..|t| + |APPENDIX|] == APPENDIX;
    forall k | OccursAt(s, APPENDIX, k) ensures k >= |t| {
      if k < |t| {
        TextEndsLine(lines);
        if k + |APPENDIX| <= |t| {
          assert t[k..k + |APPENDIX|] == s[k..k + |APPENDIX|];
          assert OccursAt(t, APPENDIX, k);
          TextContains(lines, APPENDIX);
        } else {
          CharOfOccurrence(s, APPENDIX, k, |t| - 1);
        }
      }
    }
  }

  lemma {:induction false} TextEndsLine(lines: seq<string>)
    ensures Text(lines) != "" ==> Text(lines)[|Text(lines)| - 1] == '\n'
  {
    if lines != [] { TextEndsLine(lines[1..]); }
  }

  /** Printing and reading a good tree gives back the tree and the binary data. */
  lemma RoundTrip(root: Node, binary: string)
    requires Good(root) && root.id == "root"
    ensures Reads(Serialized(root, binary), root, binary)
  {
    var ls := NodeLines(root);
    forall l | l in ls ensures GoodLine(l) { NodeLinesAreGood(root, l); }
    MarkerFollowsText(ls, binary);
    var t, s := Text(ls), Serialized(root, binary);
    assert s[..|t|] == t && s[|t| + |APPENDIX|..] == binary;
    TextReadsBack(ls);
    assert ls[0..|ls|] == ls;
    ParseNode(ls, 0, |ls|, root);
  }

  lemma TextReadsBack(lines: seq<string>)
    requires forall l :: l in lines ==> GoodLine(l)
    ensures Clean(LinesFrom(Text(lines), 0)) == lines
  {
    LinesOfText("", lines);
    assert "" + Text(lines) == Text(lines);
    CleanIsIdentity(lines);
  }

  /** Whatever text is read, the tree is good. */
  lemma ReadIsGood(s: string, root: Node, binary: string)
    requires Reads(s, root, binary)
    ensures Good(root) && root.id == "root"
  {
    var i: nat :| FirstAt(s, i) && root == RootOf(s[..i]) && binary == s[i + |APPENDIX|..];
    var data := s[..i];
    var ls := Clean(LinesFrom(data, 0));
    if Contains(data, APPENDIX) { FirstIsFirst(s, i); }
    forall k | 0 <= k < |ls| ensures GoodLine(ls[k]) {
      CleanLinesAreParts(data, 0, ls[k]);
      var lo, hi :| 0 <= lo <= hi <= |data| && ls[k] == data[lo..hi];
      if Contains(ls[k], APPENDIX) { PartContains(data, lo, hi, APPENDIX); }
    }
    ParsedIsGood(ls, 0, |ls|, [], [], LineSet(ls, 0, |ls|));
    SameGood(root, Node(root.kvs, root.subs, ""));
  }

  lemma FirstIsFirst(s: string, i: nat)
    requires FirstAt(s, i)
    ensures !Contains(s[..i], APPENDIX)
  {
    NoLineBreakInMarker();
    if Contains(s[..i], APPENDIX) {
      var k :| OccursAt(s[..i], APPENDIX, k);
      assert s[..i][k..k + |APPENDIX|] == s[k..k + |APPENDIX|];
      assert OccursAt(s, APPENDIX, k);
    }
  }

  lemma SameGood(n: Node, n': Node)
    requires n.kvs == n'.kvs && n.subs == n'.subs
    ensures Good(n) == Good(n')
  {
  }

  /** A container survives printing and reading exactly when its tree is good. */
  lemma RoundTripIff(root: Node, binary: string)
    ensures Reads(Serialized(root, binary), root, binary) <==> Good(root) && root.id == "root"
  {
    if Good(root) && root.id == "root" { RoundTrip(root, binary); }
    if Reads(Serialized(root, binary), root, binary) { ReadIsGood(Serialized(root, binary), root, binary); }
  }

  // ---------------------------------------------------------------------------------------------
  // A sufficient condition on names

  /** The ids of all nodes below a node. */
  ghost function IdsBelow(n: Node): set<string>
    decreases n
  {
    IdsIn(n.subs)
  }

  ghost function IdsIn(subs: seq<Node>): set<string>
    decreases subs
  {
    if subs == [] then {} else {subs[0].id} + IdsBelow(subs[0]) + IdsIn(subs[1..])
  }

  /** No key below the node starts like the end of a node. */
  ghost predicate NoEndKeys(n: Node)
    decreases n, 0
  {
    (forall kv :: kv in n.kvs ==> !(END <= kv.key)) && forall s :: s in n.subs ==> NoEndKeys(s)
  }

  lemma {:induction false} KeyOfEndLine(kvs: seq<KeyValue>, id: string)
    requires END + id in KvLines(kvs)
    ensures exists kv :: kv in kvs && END <= kv.key
  {
    var kv := kvs[0];
    if END + id == KvLine(kv) {
      assert KvLine(kv)[0] == '}' && KvLine(kv)[1] == '.' && KvLine(kv)[|kv.key|] == '=';
      assert kv.key[..2] == KvLine(kv)[..2];
      assert kv in kvs;
    } else {
      KeyOfEndLine(kvs[1..], id);
    }
  }

  lemma {:induction false} OwnerOfEndLine(n: Node, id: string)
    requires NoEndKeys(n) && END + id in NodeLines(n)
    ensures id in IdsBelow(n)
    decreases n
  {
    if END + id in KvLines(n.kvs) { KeyOfEndLine(n.kvs, id); } else { OwnerOfEndLineIn(n.subs, id); }
  }

  lemma {:induction false} OwnerOfEndLineIn(subs: seq<Node>, id: string)
    requires (forall s :: s in subs ==> NoEndKeys(s)) && END + id in SubLines(subs)
    ensures id in IdsIn(subs)
    decreases subs
  {
    var s := subs[0];
    assert (END + id)[0] == '}' && (START + s.id)[0] == '{';
    assert END + id == END + s.id ==> (END + id)[2..] == (END + s.id)[2..];
    if END + id in NodeLines(s) { OwnerOfEndLine(s, id); }
    if END + id in SubLines(subs[1..]) { OwnerOfEndLineIn(subs[1..], id); }
  }

  /** If no key starts like a node end and no node shares its id with one below it, no line inside a
      node is mistaken for its end. */
  lemma DistinctIdsSuffice(s: Node)
    requires NoEndKeys(s) && s.id !in IdsBelow(s)
    ensures END + s.id !in NodeLines(s)
  {
    if END + s.id in NodeLines(s) { OwnerOfEndLine(s, s.id); }
  }

  // ---------------------------------------------------------------------------------------------
  // Decimal numbers

  predicate IsDigit(c: char) {
    '0' <= c <= '9'
  }

  function Digit(d: nat): (c: char)
    requires d < 10
    ensures IsDigit(c) && c as nat - '0' as nat == d
  {
    ('0' as nat + d) as char
  }

  /** std::to_string. */
  function ToDecimal(n: nat): (s: string)
    ensures s != "" && forall c :: c in s ==> IsDigit(c)
  {
    if n < 10 then [Digit(n)] else ToDecimal(n / 10) + [Digit(n % 10)]
  }

  function ReadDigits(s: string, acc: nat): nat
    decreases s
  {
    if s != "" && IsDigit(s[0]) then ReadDigits(s[1..], acc * 10 + (s[0] as nat - '0' as nat)) else acc
  }

  datatype Option<T> = None | Some(value: T)

  /** std::stoull: white space, an optional sign, digits; None where it throws. */
  function Stoull(s: string): Option<nat> {
    var t := TrimLeft(s);
    var signed := t != "" && (t[0] == '-' || t[0] == '+');
    var digits := if signed then t[1..] else t;
    if digits == "" || !IsDigit(digits[0]) then None
    else
      var v := ReadDigits(digits, 0);
      if v >= WORD then None else if signed && t[0] == '-' then Some((WORD - v) % WORD) else Some(v)
  }

  lemma {:induction false} ReadDigitsAppend(s: string, c: char, acc: nat)
    requires (forall d :: d in s ==> IsDigit(d)) && IsDigit(c)
    ensures ReadDigits(s + [c], acc) == ReadDigits(s, acc) * 10 + (c as nat - '0' as nat)
    decreases s
  {
    if s == "" {
      assert s + [c] == [c];
    } else {
      assert (s + [c])[1..] == s[1..] + [c] && s[0] in s;
      ReadDigitsAppend(s[1..], c, acc * 10 + (s[0] as nat - '0' as nat));
    }
  }

  lemma {:induction false} ReadDecimal(n: nat)
    ensures ReadDigits(ToDecimal(n), 0) == n
  {
    if n >= 10 {
      ReadDecimal(n / 10);
      ReadDigitsAppend(ToDecimal(n / 10), Digit(n % 10), 0);
    }
  }

  /** Numbers survive printing and reading. */
  lemma DecimalRoundTrip(n: nat)
    requires n < WORD
    ensures Stoull(ToDecimal(n)) == Some(n)
  {
    var s := ToDecimal(n);
    assert s[0] in s;
    assert FirstText(s, 0) == 0 && s[0..] == s;
    ReadDecimal(n);
  }
}
