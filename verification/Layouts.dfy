/**
  Layouts: the tree of encodings chosen for a stream, and a tree of those that follows a schema.  Both
  are printed to bytes and parsed back; a layout can also be read off the bytes of an encoded stream.
 */
module Layouts {
  import opened Wrappers
  import opened BitMath
  import opened Format

  datatype Layout = Layout(encoding: Byte, compression: Byte, children: seq<Option<Layout>>)

  const MIN_LAYOUT_SIZE := 5

  // ----- printing and parsing a layout

  function Print(layout: Layout): (b: seq<Byte>)
    ensures |b| >= MIN_LAYOUT_SIZE + |layout.children|
    decreases layout
  {
    Header(layout) + PrintChildren(layout.children)
  }

  function Header(layout: Layout): (b: seq<Byte>)
    ensures |b| == MIN_LAYOUT_SIZE
  {
    [layout.encoding, layout.compression, |layout.children| % 256, 0, 0]
  }

  function PrintChildren(children: seq<Option<Layout>>): (b: seq<Byte>)
    ensures |b| >= |children|
    decreases children
  {
    if children == [] then [] else PrintChild(children[0]) + PrintChildren(children[1..])
  }

  function PrintChild(child: Option<Layout>): (b: seq<Byte>)
    ensures |b| >= 1
    decreases child
  {
    match child
    case None => [0]
    case Some(layout) => [1] + Print(layout)
  }

  function Parse(b: seq<Byte>): (r: Option<(Layout, nat)>)
    ensures r.Some? ==> MIN_LAYOUT_SIZE <= r.value.1 <= |b|
    decreases |b|, 256
  {
    if |b| < MIN_LAYOUT_SIZE then None
    else
      match ParseChildren(b, MIN_LAYOUT_SIZE, b[2])
      case None => None
      case Some((children, offset)) => Some((Layout(b[0], b[1], children), offset))
  }

  function ParseChildren(b: seq<Byte>, offset: nat, count: nat): (r: Option<(seq<Option<Layout>>, nat)>)
    requires 1 <= offset <= |b| && count < 256
    ensures r.Some? ==> |r.value.0| == count && offset <= r.value.1 <= |b|
    decreases |b|, count
  {
    if count == 0 then Some(([], offset))
    else if offset >= |b| then None
    else if b[offset] == 0 then
      match ParseChildren(b, offset + 1, count - 1)
      case None => None
      case Some((rest, end)) => Some(([None] + rest, end))
    else
      match Parse(b[offset + 1..])
      case None => None
      case Some((child, size)) =>
        match ParseChildren(b, offset + 1 + size, count - 1)
        case None => None
        case Some((rest, end)) => Some(([Some(child)] + rest, end))
  }

  /** The number of children fits its byte, in every node. */
  predicate Limited(layout: Layout)
    decreases layout
  {
    |layout.children| < 256 && LimitedChildren(layout.children)
  }

  predicate LimitedChildren(children: seq<Option<Layout>>)
    decreases children
  {
    children == [] || (LimitedChild(children[0]) && LimitedChildren(children[1..]))
  }

  predicate LimitedChild(child: Option<Layout>)
    decreases child
  {
    match child
    case None => true
    case Some(layout) => Limited(layout)
  }

  /** Only [offset, offset + |bytes|) changes, and it becomes `bytes`. */
  predicate Overwritten(before: seq<Byte>, after: seq<Byte>, offset: nat, bytes: seq<Byte>)
  {
    && offset + |bytes| <= |after| == |before| && after[offset..offset + |bytes|] == bytes
    && forall i :: 0 <= i < |before| && !(offset <= i < offset + |bytes|) ==> after[i] == before[i]
  }

  /** `EncodingLayout::serialize` */
  method Serialize(layout: Layout, output: array<Byte>, offset: nat) returns (size: nat)
    requires offset + |Print(layout)| <= output.Length
    modifies output
    ensures size == |Print(layout)| && Overwritten(old(output[..]), output[..], offset, Print(layout))
    decreases layout
  {
    hide PrintChild, Header, Overwritten;
    SerializeHeader(layout, output, offset);
    size := MIN_LAYOUT_SIZE;
    var count := |layout.children|;
    ghost var written := Header(layout);
    assert layout.children[0..] == layout.children;
    for i := 0 to count
      invariant size == |written| && written + PrintChildren(layout.children[i..]) == Print(layout)
      invariant Overwritten(old(output[..]), output[..], offset, written)
    {
      ghost var rest := layout.children[i..];
      assert rest[1..] == layout.children[i + 1..] && rest[0] == layout.children[i];
      ghost var child := PrintChild(rest[0]);
      assert written + (child + PrintChildren(rest[1..])) == written + child + PrintChildren(rest[1..]);
      ghost var before := output[..];
      var childSize := SerializeChild(layout.children[i], output, offset + size);
      OverwrittenTwice(old(output[..]), before, output[..], offset, written, child);
      written := written + child;
      size := size + childSize;
    }
    assert layout.children[count..] == [] && written + [] == written;
  }

  method SerializeHeader(layout: Layout, output: array<Byte>, offset: nat)
    requires offset + MIN_LAYOUT_SIZE <= output.Length
    modifies output
    ensures Overwritten(old(output[..]), output[..], offset, Header(layout))
  {
    output[offset] := layout.encoding;
    output[offset + 1] := layout.compression;
    output[offset + 2] := |layout.children| % 256;
    output[offset + 3], output[offset + 4] := 0, 0;
  }

  method SerializeChild(child: Option<Layout>, output: array<Byte>, offset: nat) returns (size: nat)
    requires offset + |PrintChild(child)| <= output.Length
    modifies output
    ensures size == |PrintChild(child)| && Overwritten(old(output[..]), output[..], offset, PrintChild(child))
    decreases child
  {
    hide Print;
    match child {
      case None =>
        output[offset] := 0;
        size := 1;
      case Some(layout) =>
        output[offset] := 1;
        ghost var before := output[..];
        size := Serialize(layout, output, offset + 1);
        OverwrittenTwice(old(output[..]), before, output[..], offset, [1], Print(layout));
        size := size + 1;
    }
  }

  lemma OverwrittenTwice(a: seq<Byte>, b: seq<Byte>, c: seq<Byte>, offset: nat, first: seq<Byte>, second: seq<Byte>)
    requires Overwritten(a, b, offset, first) && Overwritten(b, c, offset + |first|, second)
    ensures Overwritten(a, c, offset, first + second)
  {
    var bytes := first + second;
    forall k | 0 <= k < |bytes| ensures c[offset..offset + |bytes|][k] == bytes[k] {
      if k < |first| {
        assert b[offset..offset + |first|][k] == c[offset + k];
      } else {
        assert c[offset + |first|..offset + |first| + |second|][k - |first|] == c[offset + k];
      }
    }
  }

  /** `EncodingLayout::create` */
  method Create(b: seq<Byte>) returns (r: Option<(Layout, nat)>)
    ensures r == Parse(b)
    decreases |b|
  {
    hide Continues;
    if |b| < MIN_LAYOUT_SIZE { return None; }
    var encoding, compression, count := b[0], b[1], b[2];
    var offset: nat := MIN_LAYOUT_SIZE;
    var children: seq<Option<Layout>> := [];
    ghost var whole := ParseChildren(b, offset, count);
    ContinuesFirst(whole);
    for i := 0 to count
      invariant |children| == i && 1 <= offset <= |b|
      invariant Continues(whole, children, ParseChildren(b, offset, count - i))
    {
      ContinuesOrFails(whole, children, ParseChildren(b, offset, count - i));
      if offset >= |b| { return None; }
      ghost var before, rest := children, ParseChildren(b, offset, count - i);
      var hasChild := b[offset];
      offset := offset + 1;
      if hasChild > 0 {
        var child := Create(b[offset..]);
        if child.None? { return None; }
        offset := offset + child.value.1;
        children := children + [Some(child.value.0)];
      } else {
        children := children + [None];
      }
      ContinuesNext(whole, before, children[i], rest, ParseChildren(b, offset, count - i - 1));
    }
    ContinuesLast(whole, children, offset);
    r := Some((Layout(encoding, compression, children), offset));
  }

  /** A parse of all children is what was read so far followed by a parse of the others. */
  predicate Continues(
    whole: Option<(seq<Option<Layout>>, nat)>, done: seq<Option<Layout>>, rest: Option<(seq<Option<Layout>>, nat)>)
  {
    whole == match rest
             case None => None
             case Some((children, end)) => Some((done + children, end))
  }

  lemma ContinuesFirst(whole: Option<(seq<Option<Layout>>, nat)>)
    ensures Continues(whole, [], whole)
  {
    if whole.Some? { assert [] + whole.value.0 == whole.value.0; }
  }

  lemma ContinuesOrFails(
      whole: Option<(seq<Option<Layout>>, nat)>, done: seq<Option<Layout>>, rest: Option<(seq<Option<Layout>>, nat)>)
    requires Continues(whole, done, rest)
    ensures rest.None? ==> whole.None?
  {
  }

  lemma ContinuesNext(
      whole: Option<(seq<Option<Layout>>, nat)>, done: seq<Option<Layout>>, child: Option<Layout>,
      rest: Option<(seq<Option<Layout>>, nat)>, next: Option<(seq<Option<Layout>>, nat)>)
    requires Continues(whole, done, rest)
    requires rest == match next
                     case None => None
                     case Some((children, end)) => Some(([child] + children, end))
    ensures Continues(whole, done + [child], next)
  {
    if next.Some? { assert done + ([child] + next.value.0) == done + [child] + next.value.0; }
  }

  lemma ContinuesLast(whole: Option<(seq<Option<Layout>>, nat)>, done: seq<Option<Layout>>, end: nat)
    requires Continues(whole, done, Some(([], end)))
    ensures whole == Some((done, end))
  {
    assert done + [] == done;
  }

  // ----- the round trip of a layout

  lemma {:induction false} PrintThenParse(layout: Layout, rest: seq<Byte>)
    requires Limited(layout)
    ensures Parse(Print(layout) + rest) == Some((layout, |Print(layout)|))
    decreases layout
  {
    var b := Print(layout) + rest;
    var children := PrintChildren(layout.children);
    assert b[2] == |layout.children|;
    assert b[MIN_LAYOUT_SIZE..] == children + rest;
    PrintThenParseChildren(layout.children, b, MIN_LAYOUT_SIZE, rest);
  }

  lemma {:induction false} PrintThenParseChildren(
      children: seq<Option<Layout>>, b: seq<Byte>, offset: nat, rest: seq<Byte>)
    requires LimitedChildren(children) && |children| < 256 && 1 <= offset <= |b|
    requires b[offset..] == PrintChildren(children) + rest
    ensures ParseChildren(b, offset, |children|) == Some((children, offset + |PrintChildren(children)|))
    decreases children
  {
    hide PrintChild, Print, Parse, ParseChildren;
    if children == [] {
      NoChildren(b, offset);
    } else {
      var x, tail := PrintChild(children[0]), PrintChildren(children[1..]) + rest;
      SliceAfter(b, offset, x, PrintChildren(children[1..]), rest);
      PrintThenParseChild(children[0], tail);
      PrintThenParseChildren(children[1..], b, offset + |x|, rest);
      ChildParsed(children, b, offset, tail, offset + |PrintChildren(children)|);
    }
  }

  lemma NoChildren(b: seq<Byte>, offset: nat)
    requires 1 <= offset <= |b|
    ensures ParseChildren(b, offset, 0) == Some(([], offset))
  {
  }

  /** What the first child and the others parse to, put together. */
  lemma ChildParsed(children: seq<Option<Layout>>, b: seq<Byte>, offset: nat, tail: seq<Byte>, end: nat)
    requires 0 < |children| < 256 && 1 <= offset <= |b| && b[offset..] == PrintChild(children[0]) + tail
    requires offset + |PrintChild(children[0])| <= |b|
    requires children[0].None? ==> PrintChild(children[0]) == [0]
    requires children[0].Some? ==>
      (PrintChild(children[0]) + tail)[0] == 1
      && Parse((PrintChild(children[0]) + tail)[1..]) == Some((children[0].value, |PrintChild(children[0])| - 1))
    requires ParseChildren(b, offset + |PrintChild(children[0])|, |children| - 1) == Some((children[1..], end))
    ensures ParseChildren(b, offset, |children|) == Some((children, end))
  {
    hide PrintChild, Parse;
    assert b[offset] == b[offset..][0];
    assert b[offset + 1..] == b[offset..][1..];
    assert [children[0]] + children[1..] == children;
  }

  lemma SliceAfter<T>(b: seq<T>, offset: nat, x: seq<T>, y: seq<T>, rest: seq<T>)
    requires offset <= |b| && b[offset..] == x + y + rest
    ensures offset + |x| <= |b| && b[offset..] == x + (y + rest) && b[offset + |x|..] == y + rest
  {
    assert |b[offset..]| == |x| + |y| + |rest|;
    assert b[offset + |x|..] == b[offset..][|x|..];
  }

  lemma {:induction false} PrintThenParseChild(child: Option<Layout>, tail: seq<Byte>)
    requires LimitedChild(child)
    ensures child.None? ==> PrintChild(child) == [0]
    ensures child.Some? ==>
      (PrintChild(child) + tail)[0] == 1
      && Parse((PrintChild(child) + tail)[1..]) == Some((child.value, |PrintChild(child)| - 1))
    decreases child
  {
    match child {
      case None =>
      case Some(layout) =>
        PrintThenParse(layout, tail);
        assert (PrintChild(child) + tail)[1..] == Print(layout) + tail;
    }
  }

  lemma {:induction false} ParsedIsLimited(b: seq<Byte>)
    ensures Parse(b).Some? ==> Limited(Parse(b).value.0)
    decreases |b|, 256
  {
    if |b| >= MIN_LAYOUT_SIZE { ParsedChildrenAreLimited(b, MIN_LAYOUT_SIZE, b[2]); }
  }

  lemma {:induction false} ParsedChildrenAreLimited(b: seq<Byte>, offset: nat, count: nat)
    requires 1 <= offset <= |b| && count < 256
    ensures ParseChildren(b, offset, count).Some? ==> LimitedChildren(ParseChildren(b, offset, count).value.0)
    decreases |b|, count
  {
    if count > 0 && offset < |b| {
      if b[offset] == 0 {
        ParsedChildrenAreLimited(b, offset + 1, count - 1);
      } else {
        ParsedIsLimited(b[offset + 1..]);
        var child := Parse(b[offset + 1..]);
        if child.Some? { ParsedChildrenAreLimited(b, offset + 1 + child.value.1, count - 1); }
      }
    }
  }

  /** A layout survives printing exactly when its child counts fit; what follows it does not matter. */
  lemma LayoutRoundTrip(layout: Layout, rest: seq<Byte>)
    ensures Parse(Print(layout) + rest) == Some((layout, |Print(layout)|)) <==> Limited(layout)
  {
    if Limited(layout) {
      PrintThenParse(layout, rest);
    } else {
      ParsedIsLimited(Print(layout) + rest);
    }
  }

  // ----- reading a layout off encoded bytes

  /** `EncodingLayoutCapture::capture`; a nullable node is replaced by its data child. */
  function Capture(d: seq<Byte>): Option<Layout>
    decreases |d|, 1
  {
    if |d| <= PREFIX_SIZE then None else CaptureBody(d[0], d[1], d[PREFIX_SIZE..])
  }

  function CaptureBody(encoding: Byte, dataType: Byte, body: seq<Byte>): Option<Layout>
    requires body != []
    decreases |body|, 2
  {
    match encoding
    case 3 => Some(Layout(3, body[0], []))
    case 7 => Some(Layout(7, 0, []))
    case 9 => Some(Layout(9, 0, []))
    case 0 =>
      if dataType != String.Code() then Some(Layout(0, body[0], []))
      else
        (match ReadString(body[1..])
         case None => None
         case Some((lengths, _)) => WithChildren(0, body[0], [Capture(lengths)]))
    case 6 => WithChildren(6, 0, [Capture(body[1..])])
    case 10 =>
      (match ReadString(body)
       case None => None
       case Some((isCommon, rest)) =>
         match ReadString(rest)
         case None => None
         case Some((others, _)) => WithChildren(10, 0, [Capture(isCommon), Capture(others)]))
    case 2 =>
      (match ReadString(body)
       case None => None
       case Some((alphabet, indices)) => WithChildren(2, 0, [Capture(alphabet), Capture(indices)]))
    case 1 =>
      (match ReadString(body)
       case None => None
       case Some((lengths, values)) =>
         if dataType == Bool.Code() then WithChildren(1, 0, [Capture(lengths)])
         else WithChildren(1, 0, [Capture(lengths), Capture(values)]))
    case 5 =>
      (match ReadString(body)
       case None => None
       case Some((data, _)) => Capture(data))
    case _ => None
  }

  function WithChildren(encoding: Byte, compression: Byte, children: seq<Option<Layout>>): Option<Layout>
  {
    if None in children then None else Some(Layout(encoding, compression, children))
  }
}
