/**
  Trees of layouts that follow a schema: every node has a name, the layouts of its streams and its children.
  Printed to bytes and parsed back; lengths and counts are cut to the width of their fields.
 */
module LayoutTrees {
  import opened Wrappers
  import opened BitMath
  import opened Format
  import opened Layouts

  type Entry = (Byte, Layout)

  /** The layouts by stream identifier, in the order in which the hash map is walked. */
  datatype LayoutTree = LayoutTree(kind: Byte, layouts: seq<Entry>, name: seq<Byte>, children: seq<LayoutTree>)

  const MIN_BUFFER_SIZE := 8

  // ----- printing

  function PrintEntry(e: Entry): (b: seq<Byte>)
    ensures |b| == 3 + |Print(e.1)|
  {
    [e.0] + LeBytes(|Print(e.1)|, 2) + Print(e.1)
  }

  function PrintEntries(entries: seq<Entry>): seq<Byte>
  {
    if entries == [] then [] else PrintEntry(entries[0]) + PrintEntries(entries[1..])
  }

  function TreeHeader(t: LayoutTree): (b: seq<Byte>)
    ensures |b| == 4 + |t.name|
  {
    [t.kind] + LeBytes(|t.name|, 2) + t.name + [|t.layouts| % 256]
  }

  function PrintTree(t: LayoutTree): (b: seq<Byte>)
    ensures |b| >= MIN_BUFFER_SIZE + |t.name|
    decreases t
  {
    TreeHeader(t) + PrintEntries(t.layouts) + LeBytes(|t.children|, 4) + PrintTrees(t.children)
  }

  function PrintTrees(children: seq<LayoutTree>): seq<Byte>
    decreases children
  {
    if children == [] then [] else PrintTree(children[0]) + PrintTrees(children[1..])
  }

  // ----- parsing

  predicate HasId(entries: seq<Entry>, id: Byte)
  {
    exists i :: 0 <= i < |entries| && entries[i].0 == id
  }

  /** Of two layouts for the same stream the first is kept. */
  function Insert(entries: seq<Entry>, e: Entry): seq<Entry>
  {
    if HasId(entries, e.0) then entries else entries + [e]
  }

  function ParseEntries(b: seq<Byte>, offset: nat, count: nat, done: seq<Entry>): (r: Option<(seq<Entry>, nat)>)
    requires offset <= |b|
    ensures r.Some? ==> offset <= r.value.1 <= |b|
    decreases count
  {
    if count == 0 then Some((done, offset))
    else if |b| - offset < 3 then None
    else
      var id, length := b[offset], LeNat(b[offset + 1..offset + 3]);
      if |b| - (offset + 3) < length then None
      else
        match Parse(b[offset + 3..offset + 3 + length])
        case None => None
        case Some((layout, size)) =>
          if size != length then None else ParseEntries(b, offset + 3 + size, count - 1, Insert(done, (id, layout)))
  }

  const MAX_COUNT: nat := 0x1_0000_0000

  function ParseTree(b: seq<Byte>): (r: Option<(LayoutTree, nat)>)
    ensures r.Some? ==> MIN_BUFFER_SIZE <= r.value.1 <= |b|
    decreases |b|, MAX_COUNT
  {
    if |b| < MIN_BUFFER_SIZE || |b| < LeNat(b[1..3]) + MIN_BUFFER_SIZE then None
    else
      var nameEnd := 3 + LeNat(b[1..3]);
      match ParseEntries(b, nameEnd + 1, b[nameEnd], [])
      case None => None
      case Some((entries, offset)) =>
        if offset + 4 > |b| then None
        else
          CountBound(b[offset..offset + 4]);
          match ParseTrees(b, offset + 4, LeNat(b[offset..offset + 4]), [])
          case None => None
          case Some((children, end)) =>
            if |entries| >= 255 then None else Some((LayoutTree(b[0], entries, b[3..nameEnd], children), end))
  }

  function ParseTrees(b: seq<Byte>, offset: nat, count: nat, done: seq<LayoutTree>): (r: Option<(seq<LayoutTree>, nat)>)
    requires MIN_BUFFER_SIZE <= offset <= |b| && count < MAX_COUNT
    ensures r.Some? ==> offset <= r.value.1 <= |b|
    decreases |b|, count
  {
    if count == 0 then Some((done, offset))
    else
      match ParseTree(b[offset..])
      case None => None
      case Some((child, size)) => ParseTrees(b, offset + size, count - 1, done + [child])
  }

  lemma CountBound(b: seq<Byte>)
    requires |b| == 4
    ensures LeNat(b) < MAX_COUNT
  {
    LeNatFits(b);
    WordSizes();
  }

  // ----- which trees survive

  predicate DistinctIds(entries: seq<Entry>)
  {
    forall i, j :: 0 <= i < j < |entries| ==> entries[i].0 != entries[j].0
  }

  predicate EntryLimited(e: Entry)
  {
    Limited(e.1) && |Print(e.1)| < 0x1_0000
  }

  predicate EntriesLimited(entries: seq<Entry>)
  {
    DistinctIds(entries) && forall i :: 0 <= i < |entries| ==> EntryLimited(entries[i])
  }

  /** Every length and count fits its field, in every node. */
  predicate TreeLimited(t: LayoutTree)
    decreases t
  {
    && |t.name| < 0x1_0000 && |t.layouts| < 255 && EntriesLimited(t.layouts)
    && |t.children| < MAX_COUNT && TreesLimited(t.children)
  }

  predicate TreesLimited(children: seq<LayoutTree>)
    decreases children
  {
    children == [] || (TreeLimited(children[0]) && TreesLimited(children[1..]))
  }

  // ----- printing, then parsing

  lemma {:induction false} PrintThenParseEntries(entries: seq<Entry>, b: seq<Byte>, offset: nat, rest: seq<Byte>,
        done: seq<Entry>)
    requires EntriesLimited(done + entries) && offset <= |b| && b[offset..] == PrintEntries(entries) + rest
    ensures ParseEntries(b, offset, |entries|, done) == Some((done + entries, offset + |PrintEntries(entries)|))
    decreases entries
  {
    hide Print, Parse, LeNat, LeBytes, Limited;
    hide PrintEntry, EntriesLimited, EntryLimited, Insert, ParseEntries;
    if entries == [] {
      NoEntries(b, offset, done);
      assert done + entries == done;
    } else {
      var e, tail := entries[0], PrintEntries(entries[1..]) + rest;
      var next := offset + |PrintEntry(e)|;
      SliceAfter(b, offset, PrintEntry(e), PrintEntries(entries[1..]), rest);
      FirstEntry(done, entries);
      EntryParsed(e, b, offset, tail, |entries|, done);
      PrintThenParseEntries(entries[1..], b, next, rest, done + [e]);
    }
  }

  lemma NoEntries(b: seq<Byte>, offset: nat, done: seq<Entry>)
    requires offset <= |b|
    ensures ParseEntries(b, offset, 0, done) == Some((done, offset))
  {
  }

  lemma EntryParsed(e: Entry, b: seq<Byte>, offset: nat, tail: seq<Byte>, count: nat, done: seq<Entry>)
    requires EntryLimited(e) && offset <= |b| && b[offset..] == PrintEntry(e) + tail && count > 0
    ensures offset + |PrintEntry(e)| <= |b|
    ensures ParseEntries(b, offset, count, done) ==
      ParseEntries(b, offset + |PrintEntry(e)|, count - 1, Insert(done, e))
  {
    hide Print, Parse, LeNat, LeBytes, EntryLimited, Insert;
    EntryRead(e, b, offset, tail);
  }

  lemma FirstEntry(done: seq<Entry>, entries: seq<Entry>)
    requires EntriesLimited(done + entries) && entries != []
    ensures EntryLimited(entries[0]) && Insert(done, entries[0]) == done + [entries[0]]
    ensures (done + [entries[0]]) + entries[1..] == done + entries
  {
    hide EntryLimited;
    var all := done + entries;
    assert all[|done|] == entries[0];
    forall i | 0 <= i < |done| ensures done[i].0 != entries[0].0 {
      assert all[i].0 != all[|done|].0;
    }
  }

  lemma EntryRead(e: Entry, b: seq<Byte>, offset: nat, tail: seq<Byte>)
    requires EntryLimited(e) && offset <= |b| && b[offset..] == PrintEntry(e) + tail
    ensures |b| - offset >= 3 + |Print(e.1)| && b[offset] == e.0 && LeNat(b[offset + 1..offset + 3]) == |Print(e.1)|
    ensures Parse(b[offset + 3..offset + 3 + |Print(e.1)|]) == Some((e.1, |Print(e.1)|))
  {
    hide Print, Parse, LeNat, LeBytes, Limited;
    WordSizes();
    LeBytesRead(|Print(e.1)|, 2);
    PrintThenParse(e.1, []);
    assert Print(e.1) + [] == Print(e.1);
    var x := PrintEntry(e);
    SliceAt(b, offset, x, tail, 0, 1);
    SliceAt(b, offset, x, tail, 1, 3);
    SliceAt(b, offset, x, tail, 3, |x|);
    EntryFields(e);
    assert b[offset] == b[offset + 0..offset + 1][0];
  }

  lemma EntryFields(e: Entry)
    ensures
      var x := PrintEntry(e);
      x[0] == e.0 && x[1..3] == LeBytes(|Print(e.1)|, 2) && x[3..|x|] == Print(e.1)
  {
    hide Print, LeBytes;
  }

  lemma SliceAt(b: seq<Byte>, offset: nat, x: seq<Byte>, tail: seq<Byte>, i: nat, j: nat)
    requires offset <= |b| && b[offset..] == x + tail && i <= j <= |x|
    ensures offset + |x| <= |b| && b[offset + i..offset + j] == x[i..j]
  {
    var part, expected := b[offset + i..offset + j], x[i..j];
    assert |b[offset..]| == |x| + |tail|;
    forall k | 0 <= k < j - i ensures part[k] == expected[k] {
      assert b[offset..][i + k] == b[offset + i + k] && (x + tail)[i + k] == x[i + k];
    }
  }

  lemma {:induction false} PrintThenParseTree(t: LayoutTree, rest: seq<Byte>)
    requires TreeLimited(t)
    ensures ParseTree(PrintTree(t) + rest) == Some((t, |PrintTree(t)|))
    decreases t
  {
    hide LeNat, LeBytes, PrintEntries, ParseEntries, ParseTrees, PrintTrees, EntriesLimited, TreesLimited;
    hide ParseTree, TreeHeader;
    var b := PrintTree(t) + rest;
    var entries, trees := PrintEntries(t.layouts), PrintTrees(t.children);
    var counted := 4 + |t.name| + |entries|;
    FourParts(TreeHeader(t), entries, LeBytes(|t.children|, 4), trees, rest);
    HeaderRead(t, b, entries + LeBytes(|t.children|, 4) + trees + rest);
    assert [] + t.layouts == t.layouts && [] + t.children == t.children;
    PrintThenParseEntries(t.layouts, b, 4 + |t.name|, LeBytes(|t.children|, 4) + trees + rest, []);
    WordSizes();
    LeBytesRead(|t.children|, 4);
    PrintThenParseTrees(t.children, b, counted + 4, rest, []);
    TreeParsed(t, b, counted, counted + 4 + |trees|);
  }

  lemma FourParts<T>(h: seq<T>, e: seq<T>, c: seq<T>, t: seq<T>, rest: seq<T>)
    ensures
      var b := h + e + c + t + rest;
      && b == h + (e + c + t + rest) && b[|h|..] == e + (c + t + rest)
      && b[|h| + |e|..|h| + |e| + |c|] == c && b[|h| + |e| + |c|..] == t + rest
  {
    var b := h + e + c + t + rest;
    assert b == h + (e + c + t + rest);
    assert b == h + e + c + (t + rest);
  }

  /** What the parts of a tree parse to, put together. */
  lemma TreeParsed(t: LayoutTree, b: seq<Byte>, counted: nat, end: nat)
    requires |t.layouts| < 255 && |b| >= MIN_BUFFER_SIZE + |t.name| && counted + 4 <= |b| && |t.children| < MAX_COUNT
    requires b[0] == t.kind && LeNat(b[1..3]) == |t.name| && b[3..3 + |t.name|] == t.name
    requires ParseEntries(b, 4 + |t.name|, b[3 + |t.name|], []) == Some((t.layouts, counted))
    requires LeNat(b[counted..counted + 4]) == |t.children| && MIN_BUFFER_SIZE <= counted + 4
    requires ParseTrees(b, counted + 4, |t.children|, []) == Some((t.children, end))
    ensures ParseTree(b) == Some((t, end))
  {
    hide LeNat, ParseEntries, ParseTrees;
  }

  lemma HeaderRead(t: LayoutTree, b: seq<Byte>, rest: seq<Byte>)
    requires |t.name| < 0x1_0000 && |t.layouts| < 256 && b == TreeHeader(t) + rest
    ensures b[0] == t.kind && LeNat(b[1..3]) == |t.name| && b[3..3 + |t.name|] == t.name &&
      b[3 + |t.name|] == |t.layouts|
  {
    hide LeNat, LeBytes;
    WordSizes();
    LeBytesRead(|t.name|, 2);
    assert b[1..3] == LeBytes(|t.name|, 2);
  }

  lemma {:induction false} PrintThenParseTrees(children: seq<LayoutTree>, b: seq<Byte>, offset: nat,
        rest: seq<Byte>, done: seq<LayoutTree>)
    requires TreesLimited(children) && |children| < MAX_COUNT && MIN_BUFFER_SIZE <= offset <= |b|
    requires b[offset..] == PrintTrees(children) + rest
    ensures ParseTrees(b, offset, |children|, done) == Some((done + children, offset + |PrintTrees(children)|))
    decreases children
  {
    hide PrintTree, ParseTree, TreeLimited;
    if children == [] {
      assert done + children == done;
    } else {
      var child, tail := children[0], PrintTrees(children[1..]) + rest;
      var x := PrintTree(child);
      var next := offset + |x|;
      SliceAfter(b, offset, x, PrintTrees(children[1..]), rest);
      PrintThenParseTree(child, tail);
      ChildParsed(b, offset, |children|, done, child, |x|);
      PrintThenParseTrees(children[1..], b, next, rest, done + [child]);
      assert (done + [child]) + children[1..] == done + children;
    }
  }

  lemma ChildParsed(b: seq<Byte>, offset: nat, count: nat, done: seq<LayoutTree>, child: LayoutTree, size: nat)
    requires MIN_BUFFER_SIZE <= offset <= |b| && 0 < count < MAX_COUNT && ParseTree(b[offset..]) == Some((child, size))
    ensures offset + size <= |b|
    ensures ParseTrees(b, offset, count, done) == ParseTrees(b, offset + size, count - 1, done + [child])
  {
    hide ParseTree;
  }

  // ----- what is parsed is limited

  lemma {:induction false} ParsedSize(b: seq<Byte>)
    ensures Parse(b).Some? ==> |Print(Parse(b).value.0)| == Parse(b).value.1
    decreases |b|, 256
  {
    if |b| >= MIN_LAYOUT_SIZE { ParsedChildrenSize(b, MIN_LAYOUT_SIZE, b[2]); }
  }

  lemma {:induction false} ParsedChildrenSize(b: seq<Byte>, offset: nat, count: nat)
    requires 1 <= offset <= |b| && count < 256
    ensures
      var r := ParseChildren(b, offset, count);
      r.Some? ==> offset + |PrintChildren(r.value.0)| == r.value.1
    decreases |b|, count
  {
    hide PrintChildren;
    NoChildrenSize();
    if count > 0 && offset < |b| {
      if b[offset] == 0 {
        ParsedChildrenSize(b, offset + 1, count - 1);
        var rest := ParseChildren(b, offset + 1, count - 1);
        if rest.Some? { ChildrenSize(None, rest.value.0); }
      } else {
        ParsedSize(b[offset + 1..]);
        var child := Parse(b[offset + 1..]);
        if child.Some? {
          ParsedChildrenSize(b, offset + 1 + child.value.1, count - 1);
          var rest := ParseChildren(b, offset + 1 + child.value.1, count - 1);
          if rest.Some? { ChildrenSize(Some(child.value.0), rest.value.0); }
        }
      }
    }
  }

  lemma ChildrenSize(child: Option<Layout>, rest: seq<Option<Layout>>)
    ensures |PrintChildren([child] + rest)| ==
      (if child.None? then 1 else 1 + |Print(child.value)|) + |PrintChildren(rest)|
  {
    hide Print;
    assert ([child] + rest)[1..] == rest;
  }

  lemma NoChildrenSize()
    ensures PrintChildren([]) == []
  {
  }

  lemma InsertLimited(done: seq<Entry>, e: Entry)
    requires EntriesLimited(done) && EntryLimited(e)
    ensures EntriesLimited(Insert(done, e))
  {
    hide EntryLimited;
  }

  lemma {:induction false} ParsedEntriesLimited(b: seq<Byte>, offset: nat, count: nat, done: seq<Entry>)
    requires offset <= |b| && EntriesLimited(done)
    ensures var r := ParseEntries(b, offset, count, done); r.Some? ==> EntriesLimited(r.value.0)
    decreases count
  {
    hide Print, Parse, LeNat, Limited, EntriesLimited, Insert;
    if count > 0 && |b| - offset >= 3 {
      var id, length := b[offset], LeNat(b[offset + 1..offset + 3]);
      LeNatFits(b[offset + 1..offset + 3]);
      WordSizes();
      if |b| - (offset + 3) >= length {
        var bytes := b[offset + 3..offset + 3 + length];
        ParsedIsLimited(bytes);
        ParsedSize(bytes);
        var parsed := Parse(bytes);
        if parsed.Some? && parsed.value.1 == length {
          InsertLimited(done, (id, parsed.value.0));
          ParsedEntriesLimited(b, offset + 3 + length, count - 1, Insert(done, (id, parsed.value.0)));
        }
      }
    }
  }

  lemma {:induction false} ParsedTreeLimited(b: seq<Byte>)
    ensures ParseTree(b).Some? ==> TreeLimited(ParseTree(b).value.0)
    decreases |b|, MAX_COUNT
  {
    hide ParseEntries, ParseTrees, EntriesLimited, TreesLimited, LeNat;
    if ParseTree(b).Some? {
      LeNatFits(b[1..3]);
      WordSizes();
      var nameEnd := 3 + LeNat(b[1..3]);
      NothingLimited();
      ParsedEntriesLimited(b, nameEnd + 1, b[nameEnd], []);
      var offset := ParseEntries(b, nameEnd + 1, b[nameEnd], []).value.1;
      CountBound(b[offset..offset + 4]);
      ParsedTreesLimited(b, offset + 4, LeNat(b[offset..offset + 4]), []);
    }
  }

  lemma NothingLimited()
    ensures EntriesLimited([]) && TreesLimited([])
  {
  }

  lemma {:induction false} ParsedTreesLimited(b: seq<Byte>, offset: nat, count: nat, done: seq<LayoutTree>)
    requires MIN_BUFFER_SIZE <= offset <= |b| && count < MAX_COUNT && TreesLimited(done)
    ensures
      var r := ParseTrees(b, offset, count, done);
      r.Some? ==> TreesLimited(r.value.0) && |r.value.0| == |done| + count
    decreases |b|, count
  {
    hide ParseTree, TreeLimited, TreesLimited;
    if count > 0 {
      ParsedTreeLimited(b[offset..]);
      var child := ParseTree(b[offset..]);
      if child.Some? {
        OneMoreLimited(done, child.value.0);
        ParsedTreesLimited(b, offset + child.value.1, count - 1, done + [child.value.0]);
      }
    }
  }

  lemma {:induction false} OneMoreLimited(done: seq<LayoutTree>, child: LayoutTree)
    requires TreesLimited(done) && TreeLimited(child)
    ensures TreesLimited(done + [child])
    decreases done
  {
    hide TreeLimited;
    if done == [] {
      assert [child][1..] == [];
    } else {
      assert (done + [child])[1..] == done[1..] + [child];
      OneMoreLimited(done[1..], child);
    }
  }

  /** A tree survives printing exactly when every length and count fits its field; what follows does not matter. */
  lemma TreeRoundTrip(t: LayoutTree, rest: seq<Byte>)
    ensures ParseTree(PrintTree(t) + rest) == Some((t, |PrintTree(t)|)) <==> TreeLimited(t)
  {
    if TreeLimited(t) {
      PrintThenParseTree(t, rest);
    } else {
      ParsedTreeLimited(PrintTree(t) + rest);
    }
  }

  // ----- the parser

  /** `createInternal` */
  method CreateInternal(b: seq<Byte>) returns (r: Option<(LayoutTree, nat)>)
    ensures r == ParseTree(b)
    decreases |b|, MAX_COUNT
  {
    hide LeNat, ParseEntries, ParseTrees;
    if |b| < MIN_BUFFER_SIZE { return None; }
    var kind, nameLength := b[0], LeNat(b[1..3]);
    if |b| < nameLength + MIN_BUFFER_SIZE { return None; }
    var name := b[3..3 + nameLength];
    var layouts := CreateLayouts(b, 4 + nameLength, b[3 + nameLength]);
    if layouts.None? { return None; }
    var offset := layouts.value.1;
    if offset + 4 > |b| { return None; }
    var childrenCount := LeNat(b[offset..offset + 4]);
    CountBound(b[offset..offset + 4]);
    var children := CreateChildren(b, offset + 4, childrenCount);
    if children.None? || |layouts.value.0| >= 255 { return None; }
    r := Some((LayoutTree(kind, layouts.value.0, name, children.value.0), children.value.1));
  }

  method CreateLayouts(b: seq<Byte>, start: nat, count: nat) returns (r: Option<(seq<Entry>, nat)>)
    requires start <= |b|
    ensures r == ParseEntries(b, start, count, [])
  {
    hide LeNat, Parse, Insert;
    var offset, layouts: seq<Entry> := start, [];
    for i := 0 to count
      invariant 0 <= offset <= |b|
      invariant ParseEntries(b, start, count, []) == ParseEntries(b, offset, count - i, layouts)
    {
      if |b| - offset < 3 { return None; }
      var id, length := b[offset], LeNat(b[offset + 1..offset + 3]);
      offset := offset + 3;
      if |b| - offset < length { return None; }
      var layout := Create(b[offset..offset + length]);
      if layout.None? || layout.value.1 != length { return None; }
      layouts := Insert(layouts, (id, layout.value.0));
      offset := offset + layout.value.1;
    }
    r := Some((layouts, offset));
  }

  method CreateChildren(b: seq<Byte>, start: nat, count: nat) returns (r: Option<(seq<LayoutTree>, nat)>)
    requires MIN_BUFFER_SIZE <= start <= |b| && count < MAX_COUNT
    ensures r == ParseTrees(b, start, count, [])
    decreases |b|, 0
  {
    hide ParseTree;
    var offset, children: seq<LayoutTree> := start, [];
    for i := 0 to count
      invariant MIN_BUFFER_SIZE <= offset <= |b|
      invariant ParseTrees(b, start, count, []) == ParseTrees(b, offset, count - i, children)
    {
      var child := CreateInternal(b[offset..]);
      if child.None? { return None; }
      offset := offset + child.value.1;
      children := children + [child.value.0];
    }
    r := Some((children, offset));
  }

  // ----- the printer

  /** Everything of a node but its children. */
  function PrintNode(t: LayoutTree): (b: seq<Byte>)
  {
    TreeHeader(t) + PrintEntries(t.layouts) + LeBytes(|t.children|, 4)
  }

  lemma NodeThenChildren(t: LayoutTree)
    ensures PrintTree(t) == PrintNode(t) + PrintTrees(t.children)
  {
  }

  method SerializeNode(t: LayoutTree, output: array<Byte>, offset: nat) returns (size: nat)
    requires offset + |PrintNode(t)| <= output.Length
    modifies output
    ensures size == |PrintNode(t)| && Overwritten(old(output[..]), output[..], offset, PrintNode(t))
  {
    hide PrintEntries, Overwritten, LeBytes, TreeHeader;
    ghost var before := output[..];
    WriteBytes(output, offset, TreeHeader(t));
    ghost var first := output[..];
    size := 4 + |t.name|;
    var entriesSize := SerializeEntries(t.layouts, output, offset + size);
    OverwrittenTwice(before, first, output[..], offset, TreeHeader(t), PrintEntries(t.layouts));
    size := size + entriesSize;
    ghost var second := output[..];
    WriteBytes(output, offset + size, LeBytes(|t.children|, 4));
    OverwrittenTwice(before, second, output[..], offset, TreeHeader(t) + PrintEntries(t.layouts),
      LeBytes(|t.children|, 4));
    size := size + 4;
  }

  /** `serialize`; the buffer must have room for the tree. */
  method SerializeTree(t: LayoutTree, output: array<Byte>, offset: nat) returns (size: nat)
    requires offset + |PrintTree(t)| <= output.Length
    modifies output
    ensures size == |PrintTree(t)| && Overwritten(old(output[..]), output[..], offset, PrintTree(t))
    decreases t
  {
    hide Overwritten, PrintNode, PrintTree;
    NodeThenChildren(t);
    ghost var before := output[..];
    size := SerializeNode(t, output, offset);
    ghost var written := PrintNode(t);
    assert t.children[0..] == t.children;
    for i := 0 to |t.children|
      invariant size == |written| && written + PrintTrees(t.children[i..]) == PrintTree(t)
      invariant Overwritten(before, output[..], offset, written)
    {
      ghost var rest := t.children[i..];
      assert rest[1..] == t.children[i + 1..] && rest[0] == t.children[i];
      assert written + (PrintTree(rest[0]) + PrintTrees(rest[1..])) ==
        written + PrintTree(rest[0]) + PrintTrees(rest[1..]);
      ghost var between := output[..];
      var childSize := SerializeTree(t.children[i], output, offset + size);
      OverwrittenTwice(before, between, output[..], offset, written, PrintTree(rest[0]));
      written := written + PrintTree(rest[0]);
      size := size + childSize;
    }
    assert t.children[|t.children|..] == [] && written + [] == written;
  }

  /** Each layout goes after the place of its size, which is written last. */
  method SerializeEntries(entries: seq<Entry>, output: array<Byte>, offset: nat) returns (size: nat)
    requires offset + |PrintEntries(entries)| <= output.Length
    modifies output
    ensures size == |PrintEntries(entries)| && Overwritten(old(output[..]), output[..], offset, PrintEntries(entries))
  {
    hide Overwritten, PrintEntry;
    size := 0;
    ghost var before, written: seq<Byte> := output[..], [];
    NothingOverwritten(before, offset);
    assert entries[0..] == entries && [] + PrintEntries(entries) == PrintEntries(entries);
    for i := 0 to |entries|
      invariant size == |written| && written + PrintEntries(entries[i..]) == PrintEntries(entries)
      invariant Overwritten(before, output[..], offset, written)
    {
      ghost var rest := entries[i..];
      assert rest[1..] == entries[i + 1..] && rest[0] == entries[i];
      assert written + (PrintEntry(rest[0]) + PrintEntries(rest[1..])) ==
        written + PrintEntry(rest[0]) + PrintEntries(rest[1..]);
      ghost var between := output[..];
      var entrySize := SerializeEntry(entries[i], output, offset + size);
      OverwrittenTwice(before, between, output[..], offset, written, PrintEntry(rest[0]));
      written := written + PrintEntry(rest[0]);
      size := size + entrySize;
    }
    assert entries[|entries|..] == [] && written + [] == written;
  }

  method SerializeEntry(e: Entry, output: array<Byte>, offset: nat) returns (size: nat)
    requires offset + |PrintEntry(e)| <= output.Length
    modifies output
    ensures size == |PrintEntry(e)| && Overwritten(old(output[..]), output[..], offset, PrintEntry(e))
  {
    hide Print, LeBytes;
    ghost var before := output[..];
    output[offset] := e.0;
    var layoutSize := Serialize(e.1, output, offset + 3);
    ghost var between := output[..];
    WriteBytes(output, offset + 1, LeBytes(layoutSize, 2));
    EntryOverwritten(before, between, output[..], offset, e);
    size := 3 + layoutSize;
  }

  lemma EntryOverwritten(a: seq<Byte>, b: seq<Byte>, c: seq<Byte>, offset: nat, e: Entry)
    requires offset < |a| && Overwritten(a[offset := e.0], b, offset + 3, Print(e.1))
    requires Overwritten(b, c, offset + 1, LeBytes(|Print(e.1)|, 2))
    ensures Overwritten(a, c, offset, PrintEntry(e))
  {
    hide Print, LeBytes;
    var bytes, length := PrintEntry(e), LeBytes(|Print(e.1)|, 2);
    assert c[offset + 1..offset + 3] == length;
    assert b[offset + 3..offset + 3 + |Print(e.1)|] == Print(e.1);
    forall k | 0 <= k < |bytes| ensures c[offset..offset + |bytes|][k] == bytes[k] {
      if k >= 3 {
        assert c[offset + k] == b[offset + k] == b[offset + 3..offset + 3 + |Print(e.1)|][k - 3];
      } else if k >= 1 {
        assert c[offset + k] == c[offset + 1..offset + 3][k - 1];
      }
    }
  }

  method WriteBytes(output: array<Byte>, offset: nat, bytes: seq<Byte>)
    requires offset + |bytes| <= output.Length
    modifies output
    ensures Overwritten(old(output[..]), output[..], offset, bytes)
  {
    for i := 0 to |bytes|
      invariant forall k :: 0 <= k < i ==> output[offset + k] == bytes[k]
      invariant forall k :: 0 <= k < output.Length && !(offset <= k < offset + i) ==> output[k] == old(output[k])
    {
      output[offset + i] := bytes[i];
    }
  }

  lemma NothingOverwritten(a: seq<Byte>, offset: nat)
    requires offset <= |a|
    ensures Overwritten(a, a, offset, [])
  {
  }
}
