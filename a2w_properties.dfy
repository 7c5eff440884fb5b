/** What the segmenter of the `send` handler guarantees about its messages:
    greedy packing, no fragment lost or altered, the decoration of every
    message, and the 4096-byte bound together with the case where the
    header reservation is too small. */
module A2wProperties {
  import opened GoStrings
  import opened A2w

  /** The fragments of all groups, in order. */
  function Flatten(groups: seq<seq<string>>): seq<string>
  {
    if |groups| == 0 then [] else Flatten(groups[..|groups| - 1]) + groups[|groups| - 1]
  }

  /** All strings of a list, one after the other. This is `Join(ss, "")`,
      but it peels off the last string, as `Body` and `Flatten` do, so that
      the three unfold in step in `ConcatBodies`. */
  function Concat(ss: seq<string>): string
  {
    if |ss| == 0 then "" else Concat(ss[..|ss| - 1]) + ss[|ss| - 1]
  }

  /** The body of every group. These are the bodies of `Suffixed(groups, "")`,
      named without the empty suffix so that no proof has to strip a `+ ""`
      from every element. */
  function Bodies(groups: seq<seq<string>>): seq<string>
  {
    seq(|groups|, j requires 0 <= j < |groups| => Body(groups[j]))
  }

  /** What the greedy rule leaves behind: no group is empty, no body exceeds
      `limit`, and the first fragment of each group would not have fitted
      into the body before it. */
  ghost predicate WellPacked(groups: seq<seq<string>>, limit: int)
  {
    (forall j :: 0 <= j < |groups| ==> groups[j] != [] && |Body(groups[j])| <= limit) &&
    (forall j :: 0 < j < |groups| ==> |Body(groups[j - 1])| + |groups[j][0]| + |EmptyLine| > limit)
  }

  /** Message `i` of `msgs` with its header and the mention suffix cut off. */
  function Unwrapped(msgs: seq<string>, mentionSnippet: string): seq<string>
  {
    seq(|msgs|, i requires 0 <= i < |msgs| =>
      var h := |Header(i + 1, |msgs|)|;
      if h + |mentionSnippet| <= |msgs[i]| then msgs[i][h..|msgs[i]| - |mentionSnippet|] else "")
  }

  lemma BodySingle(f: string)
    ensures Body([f]) == EmptyLine + f
  {
    assert [f][..0] == [];
  }

  lemma {:induction false} BodyConcat(a: seq<string>, b: seq<string>)
    ensures Body(a + b) == Body(a) + Body(b)
    decreases |b|
  {
    if |b| == 0 {
      assert a + b == a;
    } else {
      var b' := b[..|b| - 1];
      assert (a + b)[..|a + b| - 1] == a + b';
      BodyConcat(a, b');
    }
  }

  /** A body is the empty line followed by its fragments joined by empty lines. */
  lemma {:induction false} BodyJoin(fragments: seq<string>)
    requires |fragments| >= 1
    ensures Body(fragments) == EmptyLine + Join(fragments, EmptyLine)
    decreases |fragments|
  {
    var f0, rest := fragments[0], fragments[1..];
    assert fragments == [f0] + rest;
    BodyConcat([f0], rest);
    BodySingle(f0);
    if |rest| >= 1 {
      BodyJoin(rest);
    }
  }

  /** The bodies of the groups, one after the other, are the body of all
      their fragments. */
  lemma {:induction false} ConcatBodies(groups: seq<seq<string>>)
    ensures Concat(Bodies(groups)) == Body(Flatten(groups))
    decreases |groups|
  {
    if |groups| > 0 {
      var init := groups[..|groups| - 1];
      assert Bodies(groups)[..|groups| - 1] == Bodies(init);
      ConcatBodies(init);
      BodyConcat(Flatten(init), groups[|groups| - 1]);
    }
  }

  /** Closing the last body and opening one for `f` keeps the greedy rule
      when `f` would not have fitted into that body. */
  lemma WellPackedClose(g: seq<seq<string>>, f: string, limit: int)
    requires |g| >= 1 && WellPacked(g, limit) && Fits(f, limit)
    requires |Body(g[|g| - 1])| + |f| + |EmptyLine| > limit
    ensures WellPacked(g + [[f]], limit)
  {
    BodySingle(f);
    var g' := g + [[f]];
    forall j | 0 < j < |g'|
      ensures |Body(g'[j - 1])| + |g'[j][0]| + |EmptyLine| > limit
    {
      if j < |g| { assert g'[j - 1] == g[j - 1] && g'[j] == g[j]; }
    }
  }

  /** Adding `f` to the open body keeps the greedy rule when the body stays
      within `limit`. */
  lemma WellPackedExtend(closed: seq<seq<string>>, open: seq<string>, f: string, limit: int)
    requires WellPacked(closed + [open], limit)
    requires |Body(open)| + |f| + |EmptyLine| <= limit
    ensures WellPacked(closed + [open + [f]], limit)
  {
    var g := closed + [open];
    var open' := open + [f];
    assert open'[..|open|] == open;
    assert Body(open') == Body(open) + EmptyLine + f;
    assert open == g[|g| - 1] && open != [];
    assert open'[0] == open[0];
    var g' := closed + [open'];
    forall j | 0 <= j < |g'|
      ensures g'[j] != [] && |Body(g'[j])| <= limit
    {
      if j < |closed| { assert g'[j] == g[j]; }
    }
    forall j | 0 < j < |g'|
      ensures |Body(g'[j - 1])| + |g'[j][0]| + |EmptyLine| > limit
    {
      assert g'[j - 1] == g[j - 1];
      if j < |closed| { assert g'[j] == g[j]; }
      else { assert g'[j][0] == g[j][0]; }
    }
  }

  lemma FlattenSnoc(groups: seq<seq<string>>, g: seq<string>)
    ensures Flatten(groups + [g]) == Flatten(groups) + g
  {
    assert (groups + [g])[..|groups|] == groups;
  }

  /** The packing loop keeps every fragment, in order, and only ever builds
      bodies the greedy rule allows. */
  lemma {:induction false} PackInvariant(fragments: seq<string>, limit: int)
    requires |fragments| >= 1
    requires forall k :: 0 <= k < |fragments| ==> Fits(fragments[k], limit)
    ensures Flatten(Pack(fragments, limit).closed) + Pack(fragments, limit).open == fragments
    ensures WellPacked(Pack(fragments, limit).closed + [Pack(fragments, limit).open], limit)
    decreases |fragments|
  {
    var init := fragments[..|fragments| - 1];
    var f := fragments[|fragments| - 1];
    assert fragments == init + [f];
    if |init| == 0 {
      BodySingle(f);
      assert Pack(init, limit) == Packing([], []);
      assert Pack(fragments, limit) == Packing([], [f]);
    } else {
      PackInvariant(init, limit);
      var p := Pack(init, limit);
      var g := p.closed + [p.open];
      if |Body(p.open)| + |f| + |EmptyLine| > limit {
        assert Pack(fragments, limit) == Packing(g, [f]);
        FlattenSnoc(p.closed, p.open);
        WellPackedClose(g, f, limit);
      } else {
        assert Pack(fragments, limit) == Packing(p.closed, p.open + [f]);
        WellPackedExtend(p.closed, p.open, f, limit);
      }
    }
  }

  /** The closed groups and the last one hold every fragment, in order,
      greedily packed. */
  lemma GroupsInvariant(fragments: seq<string>, limit: int)
    requires |fragments| >= 1
    requires forall k :: 0 <= k < |fragments| ==> Fits(fragments[k], limit)
    ensures Flatten(Groups(fragments, limit)) == fragments
    ensures WellPacked(Groups(fragments, limit), limit)
  {
    PackInvariant(fragments, limit);
    var p := Pack(fragments, limit);
    FlattenSnoc(p.closed, p.open);
  }

  /** A long content that segments without error gives the decorated greedy
      groups of its fragments, all of which fit. */
  lemma LongSegmentation(content: string, mentionSnippet: string)
    requires |content| + |mentionSnippet| > MarkdownMaxLen
    requires Segmentation(content, mentionSnippet).Ok?
    ensures forall k :: 0 <= k < |Split(content, EmptyLine)| ==>
      Fits(Split(content, EmptyLine)[k], SnippetMaxLen(mentionSnippet))
    ensures Segmentation(content, mentionSnippet).value ==
      Decorate(Groups(Split(content, EmptyLine), SnippetMaxLen(mentionSnippet)), mentionSnippet)
  {
  }

  /** Content that does not fit one message and segments without error is
      cut into the greedy groups of its fragments: every fragment appears,
      unchanged and in order, and message `i` is the header `(i+1/N)`, the
      body of group `i` and the mention suffix. */
  lemma MultiSegment(content: string, mentionSnippet: string)
    requires |content| + |mentionSnippet| > MarkdownMaxLen
    requires Segmentation(content, mentionSnippet).Ok?
    ensures var msgs := Segmentation(content, mentionSnippet).value;
      var groups := Groups(Split(content, EmptyLine), SnippetMaxLen(mentionSnippet));
      |msgs| == |groups| &&
      Flatten(groups) == Split(content, EmptyLine) &&
      WellPacked(groups, SnippetMaxLen(mentionSnippet)) &&
      forall i :: 0 <= i < |msgs| ==> msgs[i] == Header(i + 1, |msgs|) + Body(groups[i]) + mentionSnippet
  {
    var groups := Groups(Split(content, EmptyLine), SnippetMaxLen(mentionSnippet));
    LongSegmentation(content, mentionSnippet);
    GroupsInvariant(Split(content, EmptyLine), SnippetMaxLen(mentionSnippet));
    DecorateAt(groups, mentionSnippet);
  }

  /** Message `i` of the decorated groups, spelled out. */
  lemma DecorateAt(groups: seq<seq<string>>, mentionSnippet: string)
    ensures var msgs := Decorate(groups, mentionSnippet);
      forall i :: 0 <= i < |msgs| ==> msgs[i] == Header(i + 1, |msgs|) + Body(groups[i]) + mentionSnippet
  {
  }

  /** A non-empty body starts with the empty line. */
  lemma BodyStart(g: seq<string>)
    requires g != []
    ensures HasPrefix(Body(g), EmptyLine)
  {
    assert g == [g[0]] + g[1..];
    BodyConcat([g[0]], g[1..]);
    BodySingle(g[0]);
  }

  lemma UnwrapOne(h: string, b: string, m: string)
    ensures |h| + |m| <= |h + b + m| && (h + b + m)[|h|..|h + b + m| - |m|] == b
  {
  }

  /** Cutting the header and the suffix off a decorated message gives back
      its body. */
  lemma UnwrapDecorated(msgs: seq<string>, groups: seq<seq<string>>, mentionSnippet: string)
    requires |msgs| == |groups|
    requires forall i :: 0 <= i < |msgs| ==> msgs[i] == Header(i + 1, |msgs|) + Body(groups[i]) + mentionSnippet
    ensures Unwrapped(msgs, mentionSnippet) == Bodies(groups)
  {
    var bodies := Unwrapped(msgs, mentionSnippet);
    forall i | 0 <= i < |msgs| ensures bodies[i] == Body(groups[i]) {
      var h, b := Header(i + 1, |msgs|), Body(groups[i]);
      assert msgs[i] == h + b + mentionSnippet;
      UnwrapOne(h, b, mentionSnippet);
    }
    assert |bodies| == |Bodies(groups)|;
  }

  /** Cutting off the headers and the mention suffixes leaves bodies that
      are never empty, each start with the empty line, each fit the budget,
      and together spell out the empty line followed by the content. */
  lemma ContentPreserved(content: string, mentionSnippet: string)
    requires |content| + |mentionSnippet| > MarkdownMaxLen
    requires Segmentation(content, mentionSnippet).Ok?
    ensures var bodies := Unwrapped(Segmentation(content, mentionSnippet).value, mentionSnippet);
      Concat(bodies) == EmptyLine + content &&
      forall i :: 0 <= i < |bodies| ==>
        HasPrefix(bodies[i], EmptyLine) && |bodies[i]| <= SnippetMaxLen(mentionSnippet)
  {
    var msgs := Segmentation(content, mentionSnippet).value;
    var groups := Groups(Split(content, EmptyLine), SnippetMaxLen(mentionSnippet));
    MultiSegment(content, mentionSnippet);
    UnwrapDecorated(msgs, groups, mentionSnippet);
    BodiesStartAndFit(groups, SnippetMaxLen(mentionSnippet));
    ConcatGroups(content, groups);
  }

  /** The bodies of greedily packed groups each start with the empty line
      and fit the budget. */
  lemma BodiesStartAndFit(groups: seq<seq<string>>, limit: int)
    requires WellPacked(groups, limit)
    ensures forall i :: 0 <= i < |Bodies(groups)| ==>
      HasPrefix(Bodies(groups)[i], EmptyLine) && |Bodies(groups)[i]| <= limit
  {
    forall i | 0 <= i < |groups|
      ensures HasPrefix(Body(groups[i]), EmptyLine)
    {
      BodyStart(groups[i]);
    }
  }

  /** Groups that flatten back to the fragments of `content` have bodies
      that spell out the empty line followed by `content`. */
  lemma ConcatGroups(content: string, groups: seq<seq<string>>)
    requires Flatten(groups) == Split(content, EmptyLine)
    ensures Concat(Bodies(groups)) == EmptyLine + content
  {
    ConcatBodies(groups);
    BodyJoin(Split(content, EmptyLine));
    JoinSplit(content, EmptyLine);
  }

  /** When the content does not fit one message, at least two messages
      come out, so a `(1/1)` header never appears. */
  lemma AtLeastTwoMessages(content: string, mentionSnippet: string)
    requires |content| + |mentionSnippet| > MarkdownMaxLen
    requires Segmentation(content, mentionSnippet).Ok?
    ensures |Segmentation(content, mentionSnippet).value| >= 2
  {
    var msgs := Segmentation(content, mentionSnippet).value;
    ContentPreserved(content, mentionSnippet);
    var bodies := Unwrapped(msgs, mentionSnippet);
    MultiSegment(content, mentionSnippet);
  }

  lemma Affixes(h: string, b: string, m: string)
    ensures HasPrefix(h + b + m, h) && HasSuffix(h + b + m, m)
  {
    assert (h + b + m)[..|h|] == h;
    assert (h + b + m)[|h + b + m| - |m|..] == m;
  }

  /** Every message ends with the same mention suffix, and when there are
      several, message `i` starts with the header `(i+1/N)`. */
  lemma Decoration(content: string, mentionSnippet: string)
    requires Segmentation(content, mentionSnippet).Ok?
    ensures var msgs := Segmentation(content, mentionSnippet).value;
      forall i :: 0 <= i < |msgs| ==>
        HasSuffix(msgs[i], mentionSnippet) && (|msgs| > 1 ==> HasPrefix(msgs[i], Header(i + 1, |msgs|)))
  {
    var msgs := Segmentation(content, mentionSnippet).value;
    if |content| + |mentionSnippet| > MarkdownMaxLen {
      MultiSegment(content, mentionSnippet);
      var groups := Groups(Split(content, EmptyLine), SnippetMaxLen(mentionSnippet));
      forall i | 0 <= i < |msgs|
        ensures HasSuffix(msgs[i], mentionSnippet) && HasPrefix(msgs[i], Header(i + 1, |msgs|))
      {
        Affixes(Header(i + 1, |msgs|), Body(groups[i]), mentionSnippet);
      }
    } else {
      Affixes("", content, mentionSnippet);
      assert "" + content + mentionSnippet == msgs[0];
    }
  }

  /** Every message fits WeCom's 4096-byte limit as long as there are at
      most 99 of them: then every header has at most four digits in all, so
      it is no longer than the 40-byte format string the budget reserved
      (`HeaderFitsFormat`). With more messages the bound is no longer
      guaranteed, though short enough bodies still keep it. */
  lemma MessageLengthBound(content: string, mentionSnippet: string)
    requires Segmentation(content, mentionSnippet).Ok?
    requires |Segmentation(content, mentionSnippet).value| <= 99
    ensures forall i :: 0 <= i < |Segmentation(content, mentionSnippet).value| ==>
      |Segmentation(content, mentionSnippet).value[i]| <= MarkdownMaxLen
  {
    var msgs := Segmentation(content, mentionSnippet).value;
    if |content| + |mentionSnippet| > MarkdownMaxLen {
      MultiSegment(content, mentionSnippet);
      var groups := Groups(Split(content, EmptyLine), SnippetMaxLen(mentionSnippet));
      ItoaWidth(|msgs|);
      forall i | 0 <= i < |msgs| ensures |msgs[i]| <= MarkdownMaxLen {
        ItoaWidth(i + 1);
        HeaderFitsFormat(i + 1, |msgs|);
        assert |Body(groups[i])| <= SnippetMaxLen(mentionSnippet);
      }
    }
  }

  // ---------------------------------------------------------------------
  // Concrete contents.

  /** A fragment of `n` bytes with no newline in it. */
  function Filler(n: nat): (f: string)
    ensures |f| == n && forall j :: 0 <= j < n ==> f[j] == 'a'
  {
    seq(n, _ => 'a')
  }

  predicate NoNewline(parts: seq<string>)
  {
    forall k, j :: 0 <= k < |parts| && 0 <= j < |parts[k]| ==> parts[k][j] != '\n'
  }

  lemma JoinLength(parts: seq<string>, sep: string)
    requires |parts| >= 2
    ensures |Join(parts, sep)| >= |parts[0]| + |sep| + |parts[1]|
  {
    var rest := parts[1..];
    assert rest[0] == parts[1];
    if |rest| >= 2 {
      assert Join(rest, sep) == rest[0] + sep + Join(rest[1..], sep);
    }
  }

  /** Newline-free fragments that all fit, joined into content too long for
      one message, are packed and decorated as they are. */
  lemma LongContent(parts: seq<string>, mentionSnippet: string)
    requires |parts| >= 2 && NoNewline(parts)
    requires forall k :: 0 <= k < |parts| ==> Fits(parts[k], SnippetMaxLen(mentionSnippet))
    requires |Join(parts, EmptyLine)| + |mentionSnippet| > MarkdownMaxLen
    ensures Segmentation(Join(parts, EmptyLine), mentionSnippet)
         == Ok(Decorate(Groups(parts, SnippetMaxLen(mentionSnippet)), mentionSnippet))
  {
    SplitJoin(parts, EmptyLine);
  }

  lemma {:induction false} PackUniform(f: string, n: nat, limit: int)
    requires n >= 1 && |f| + |EmptyLine| <= limit < 2 * (|f| + |EmptyLine|)
    ensures Pack(seq(n, _ => f), limit) == Packing(seq(n - 1, _ => [f]), [f])
  {
    var fs := seq(n, _ => f);
    assert fs[..n - 1] == seq(n - 1, _ => f);
    BodySingle(f);
    if n == 1 {
      assert Pack(fs[..0], limit) == Packing([], []);
    } else {
      PackUniform(f, n - 1, limit);
      assert seq(n - 2, _ => [f]) + [[f]] == seq(n - 1, _ => [f]);
    }
  }

  lemma NoMentions()
    ensures MentionSnippet([]) == "" && SnippetMaxLen("") == 4056
  {
    assert |SnippetHeader| == 40;
  }

  /** One hundred fragments of 4053 bytes with no mentions segment into one
      message per fragment. */
  lemma UniformContent()
    ensures var f := Filler(4053);
      Segmentation(Join(seq(100, _ => f), EmptyLine), "") == Ok(Decorate(seq(100, _ => [f]), ""))
  {
    var f := Filler(4053);
    var parts := seq(100, _ => f);
    NoMentions();
    forall k, j | 0 <= k < |parts| && 0 <= j < |parts[k]| ensures parts[k][j] != '\n' {
      assert parts[k] == f;
    }
    JoinLength(parts, EmptyLine);
    LongContent(parts, "");
    PackUniform(f, 100, 4056);
    assert Groups(parts, 4056) == seq(100, _ => [f]);
  }

  /** One hundred fragments of 4053 bytes, no mentions: every fragment fills
      a message body on its own, and the hundredth message, whose header
      `(100/100)` is two bytes longer than the format string, is 4098 bytes. */
  lemma HeaderOverflow()
    ensures var content := Join(seq(100, _ => Filler(4053)), EmptyLine);
      var r := Segmentation(content, MentionSnippet([]));
      r.Ok? && |r.value| == 100 && |r.value[99]| == 4098 > MarkdownMaxLen
  {
    var f := Filler(4053);
    NoMentions();
    UniformContent();
    var msgs := Decorate(seq(100, _ => [f]), "");
    assert msgs[99] == Header(100, 100) + Body([f]) + "";
    BodySingle(f);
    ItoaWidth(100);
    assert Itoa(100) == Itoa(10) + ['0'];
    assert Itoa(10) == Itoa(1) + ['0'];
  }

  /** Fragments of 100, 3900, 50, 3900 and 10 bytes under the budget of
      4056 bytes left when there are no mentions: the first two share a body
      of 4006 bytes, the third would take it to 4059 and so opens the second
      body, which takes the last two as well. */
  lemma GreedyPackExample(f0: string, f1: string, f2: string, f3: string, f4: string)
    requires |f0| == 100 && |f1| == 3900 && |f2| == 50 && |f3| == 3900 && |f4| == 10
    ensures Groups([f0, f1, f2, f3, f4], 4056) == [[f0, f1], [f2, f3, f4]]
  {
    var limit := 4056;
    var fragments := [f0, f1, f2, f3, f4];
    BodySingle(f0);
    BodySingle(f2);
    assert fragments[..0] == [];
    assert fragments[..1][..0] == [];
    assert Pack(fragments[..1], limit) == Packing([], [f0]);
    assert fragments[..2][..1] == fragments[..1];
    assert Pack(fragments[..2], limit) == Packing([], [f0, f1]);
    assert [f0, f1][..1] == [f0];
    assert |Body([f0, f1])| == 4006;
    assert fragments[..3][..2] == fragments[..2];
    assert Pack(fragments[..3], limit) == Packing([[f0, f1]], [f2]);
    assert fragments[..4][..3] == fragments[..3];
    assert Pack(fragments[..4], limit) == Packing([[f0, f1]], [f2, f3]);
    assert [f2, f3][..1] == [f2];
    assert |Body([f2, f3])| == 3956;
    assert fragments[..4] == fragments[..|fragments| - 1];
    assert Pack(fragments, limit) == Packing([[f0, f1]], [f2, f3, f4]);
  }

  /** The fragments of the worked example. */
  function ExampleFragments(): seq<string>
  {
    [Filler(100), Filler(3900), Filler(50), Filler(3900), Filler(10)]
  }

  lemma ExampleContent()
    ensures var fragments := ExampleFragments();
      Segmentation(Join(fragments, EmptyLine), "") == Ok(Decorate(Groups(fragments, 4056), ""))
  {
    var fragments := ExampleFragments();
    var f0, f1, f2, f3, f4 := fragments[0], fragments[1], fragments[2], fragments[3], fragments[4];
    NoMentions();
    forall k, j | 0 <= k < 5 && 0 <= j < |fragments[k]| ensures fragments[k][j] != '\n' {
      assert fragments[k] in {f0, f1, f2, f3, f4};
    }
    assert forall k :: 0 <= k < 5 ==> Fits(fragments[k], 4056);
    JoinLength(fragments[2..], EmptyLine);
    JoinCons(f1, fragments[2..], EmptyLine);
    JoinCons(f0, fragments[1..], EmptyLine);
    assert fragments == [f0] + fragments[1..] && fragments[1..] == [f1] + fragments[2..];
    LongContent(fragments, "");
  }

  /** The same fragments joined into rendered content make two messages,
      headed `(1/2)` and `(2/2)`. */
  lemma GreedyExample()
    ensures var fragments := ExampleFragments();
      var r := Segmentation(Join(fragments, EmptyLine), MentionSnippet([]));
      r.Ok? && |r.value| == 2 &&
      r.value[0] == Header(1, 2) + Body(fragments[..2]) &&
      r.value[1] == Header(2, 2) + Body(fragments[2..])
  {
    var fragments := ExampleFragments();
    NoMentions();
    ExampleContent();
    GreedyPackExample(fragments[0], fragments[1], fragments[2], fragments[3], fragments[4]);
    assert fragments == [fragments[0], fragments[1], fragments[2], fragments[3], fragments[4]];
    assert fragments[..2] == [fragments[0], fragments[1]];
    assert fragments[2..] == [fragments[2], fragments[3], fragments[4]];
  }
}
