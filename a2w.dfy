/** The WeCom Markdown message segmenter of the Alertmanager-to-WeCom relay.
    The `send` handler renders an alert batch into Markdown text, builds a
    "mention" suffix from the `mention` query values, and cuts the text into
    messages that each fit WeCom's 4096-byte Markdown limit. Text is cut
    only at the WeCom "empty line" `"\n\n\n"`; the pieces are packed
    greedily; every message carries the mention suffix; and when more than
    one message is needed each one is prefixed with an `(i/N)` header. */
module A2w {
  import opened GoStrings

  /** WeCom's largest Markdown message body, in bytes. */
  const MarkdownMaxLen: int := 4096

  /** At least three newlines make an empty line in WeCom; the only place
      where a message may be cut. */
  const EmptyLine: string := "\n\n\n"

  const HeaderOpen: string := "<font color=\"comment\">**("
  const HeaderClose: string := ")**</font>"

  /** The header format string, with its two `%d` verbs. */
  const SnippetHeader: string := HeaderOpen + "%d/%d" + HeaderClose

  datatype Option<T> = None | Some(value: T)

  /** The two ways segmentation ends without messages, both before anything
      is delivered.
      `NegativeGrow`: the budget is negative (a mention suffix over 4056
      bytes), so `strings.Builder.Grow(count)` panics on its negative
      `count` instead of returning; the request never reaches the 400 path.
      `OversizedFragment`: a fragment too long to fit a message even on its
      own, which the handler answers with HTTP 400; `fragmentLen` is the
      fragment's length and `limit` the largest fragment length that would
      have fitted. */
  datatype SegmentError =
    | NegativeGrow(count: int)
    | OversizedFragment(fragmentLen: nat, limit: int)

  datatype Result<T> = Ok(value: T) | Err(error: SegmentError)

  // ---------------------------------------------------------------------
  // Template name

  /** The template file chosen by the `tmpl` query value. */
  function TemplateName(prefix: string): (name: string)
    ensures HasSuffix(name, ".tmpl")
    ensures prefix == "" ==> name == "base.tmpl"
    ensures prefix != "" ==> name[..|name| - 5] == prefix
  {
    if prefix == "" then "base.tmpl" else prefix + ".tmpl"
  }

  /** Two `tmpl` values select the same file exactly when they are equal,
      or when both are in {"", "base"}. */
  lemma TemplateNameCollisions(p: string, q: string)
    ensures TemplateName(p) == TemplateName(q) <==> p == q || (p in {"", "base"} && q in {"", "base"})
  {
    var a, b := TemplateName(p), TemplateName(q);
    if a == b {
      assert a[..|a| - 5] == b[..|b| - 5];
      if p == "" && q != "" { assert q == a[..|a| - 5] == "base"; }
      if q == "" && p != "" { assert p == b[..|b| - 5] == "base"; }
    }
  }

  // ---------------------------------------------------------------------
  // Mention suffix

  /** The WeCom mention marker for one user id, `fmt.Sprintf("<@%v>", id)`. */
  function Mention(id: string): (marker: string)
    ensures |marker| == |id| + 3 && marker[2..|marker| - 1] == id
    ensures HasPrefix(marker, "<@") && HasSuffix(marker, ">")
  {
    "<@" + id + ">"
  }

  /** The markers of all ids, in order, with no separator. */
  function Mentions(ids: seq<string>): (r: string)
    ensures r == "" <==> ids == []
  {
    if |ids| == 0 then "" else Mentions(ids[..|ids| - 1]) + Mention(ids[|ids| - 1])
  }

  /** Total length of a list of strings. */
  function TotalLen(ss: seq<string>): nat
  {
    if |ss| == 0 then 0 else TotalLen(ss[..|ss| - 1]) + |ss[|ss| - 1]|
  }

  /** The mention suffix for the given `mention` query values: empty when
      there are none, otherwise an empty line followed by one marker per id. */
  function MentionSnippet(ids: seq<string>): (snippet: string)
    ensures snippet == "" <==> ids == []
    ensures ids != [] ==> HasPrefix(snippet, EmptyLine)
  {
    if |ids| == 0 then "" else EmptyLine + Mentions(ids)
  }

  /** The markers of two lists of ids, one after the other. */
  lemma {:induction false} MentionsConcat(a: seq<string>, b: seq<string>)
    ensures Mentions(a + b) == Mentions(a) + Mentions(b)
    decreases |b|
  {
    if |b| > 0 {
      var b' := b[..|b| - 1];
      assert (a + b)[..|a + b| - 1] == a + b';
      MentionsConcat(a, b');
    } else {
      assert a + b == a;
    }
  }

  /** Each id costs its own length plus the three bytes of `<@` and `>`,
      and a non-empty list the three bytes of the empty line. */
  lemma {:induction false} MentionSnippetLength(ids: seq<string>)
    ensures |MentionSnippet(ids)| == if ids == [] then 0 else 3 + 3 * |ids| + TotalLen(ids)
  {
    MentionsLength(ids);
  }

  lemma {:induction false} MentionsLength(ids: seq<string>)
    ensures |Mentions(ids)| == 3 * |ids| + TotalLen(ids)
  {
    if |ids| > 0 {
      MentionsLength(ids[..|ids| - 1]);
    }
  }

  /** The mention loop of `send` in a2w.go: the builder gets the empty
      line once, then one marker per id; `exist` holds exactly when at least one value was given. */
  method BuildMentionSnippet(mentions: seq<string>) returns (snippet: string)
    ensures snippet == MentionSnippet(mentions)
  {
    var mentionsBuilder := "";
    var exist := |mentions| > 0;
    if exist {
      mentionsBuilder := mentionsBuilder + EmptyLine;
      for k := 0 to |mentions|
        invariant mentionsBuilder == EmptyLine + Mentions(mentions[..k])
      {
        assert mentions[..k + 1][..k] == mentions[..k];
        mentionsBuilder := mentionsBuilder + Mention(mentions[k]);
      }
      assert mentions[..|mentions|] == mentions;
    }
    snippet := mentionsBuilder;
  }

  // ---------------------------------------------------------------------
  // Header

  /** `fmt.Sprintf(SnippetHeader, index, count)`: the format string with
      both `%d` verbs replaced by decimal numbers. */
  function Header(index: nat, count: nat): (h: string)
    ensures |h| == |SnippetHeader| - 4 + |Itoa(index)| + |Itoa(count)|
    ensures HasPrefix(h, HeaderOpen) && HasSuffix(h, HeaderClose)
  {
    HeaderOpen + Itoa(index) + "/" + Itoa(count) + HeaderClose
  }

  /** The rendered header is no longer than the format string exactly when
      the two numbers have at most four digits together. */
  lemma HeaderFitsFormat(index: nat, count: nat)
    ensures |Header(index, count)| <= |SnippetHeader| <==> |Itoa(index)| + |Itoa(count)| <= 4
  {
  }

  // ---------------------------------------------------------------------
  // Segmentation

  /** The budget for one message's fragments: the Markdown limit minus the
      length of the header FORMAT string and of the mention suffix. */
  function SnippetMaxLen(mentionSnippet: string): (n: int)
    ensures n == 4056 - |mentionSnippet|
    ensures n < 0 <==> |mentionSnippet| > 4056
  {
    MarkdownMaxLen - |SnippetHeader| - |mentionSnippet|
  }

  /** A fragment, with the empty line in front of it, fits the budget. */
  predicate Fits(fragment: string, limit: int)
  {
    |fragment| + |EmptyLine| <= limit
  }

  /** Index of the first fragment at or after `from` that does not fit. */
  function FirstOversized(fragments: seq<string>, limit: int, from: nat): (r: Option<nat>)
    ensures r.None? <==> forall k :: from <= k < |fragments| ==> Fits(fragments[k], limit)
    ensures r.Some? ==> from <= r.value < |fragments| && !Fits(fragments[r.value], limit)
    ensures r.Some? ==> forall k :: from <= k < r.value ==> Fits(fragments[k], limit)
    decreases |fragments| - from
  {
    if from >= |fragments| then None
    else if !Fits(fragments[from], limit) then Some(from)
    else FirstOversized(fragments, limit, from + 1)
  }

  /** A message body: every fragment of the group preceded by the empty line. */
  function Body(group: seq<string>): string
  {
    if |group| == 0 then "" else Body(group[..|group| - 1]) + EmptyLine + group[|group| - 1]
  }

  /** The state of the packing loop: the groups of fragments already closed
      into bodies, and the group of the body still being built. */
  datatype Packing = Packing(closed: seq<seq<string>>, open: seq<string>)

  /** Greedy packing, fragment by fragment: the open body is closed exactly
      when the next fragment, with its empty line, would take it past
      `limit`; the fragment then always goes into the (possibly new) open body. */
  function Pack(fragments: seq<string>, limit: int): (p: Packing)
    ensures p.open == [] <==> fragments == []
    ensures fragments != [] ==> p.open[|p.open| - 1] == fragments[|fragments| - 1]
  {
    if |fragments| == 0 then Packing([], [])
    else
      var p := Pack(fragments[..|fragments| - 1], limit);
      var f := fragments[|fragments| - 1];
      if |Body(p.open)| + |f| + |EmptyLine| > limit then Packing(p.closed + [p.open], [f])
      else Packing(p.closed, p.open + [f])
  }

  /** All groups once the last body has been closed too. */
  function Groups(fragments: seq<string>, limit: int): (groups: seq<seq<string>>)
    ensures |groups| >= 1
    ensures fragments != [] ==>
      var last := groups[|groups| - 1];
      last != [] && last[|last| - 1] == fragments[|fragments| - 1]
  {
    var p := Pack(fragments, limit);
    p.closed + [p.open]
  }

  /** Bodies, each followed by the mention suffix (messages before headers). */
  function Suffixed(groups: seq<seq<string>>, mentionSnippet: string): seq<string>
  {
    seq(|groups|, j requires 0 <= j < |groups| => Body(groups[j]) + mentionSnippet)
  }

  /** The final messages: the `(i/N)` header, the body, the mention suffix. */
  function Decorate(groups: seq<seq<string>>, mentionSnippet: string): (msgs: seq<string>)
    ensures |msgs| == |groups|
  {
    seq(|groups|, i requires 0 <= i < |groups| => Header(i + 1, |groups|) + Body(groups[i]) + mentionSnippet)
  }

  /** What the segmentation block of `send` in a2w.go computes from the
      rendered `content` and the mention suffix: a single undecorated message
      when everything fits, otherwise the split, checked, packed and decorated
      messages, the panic of `Grow` on a negative budget, or the error for the
      first fragment that cannot fit. */
  function Segmentation(content: string, mentionSnippet: string): (r: Result<seq<string>>)
    ensures |content| + |mentionSnippet| <= MarkdownMaxLen ==> r == Ok([content + mentionSnippet])
    ensures r.Err? && r.error.NegativeGrow? <==>
      |content| + |mentionSnippet| > MarkdownMaxLen && SnippetMaxLen(mentionSnippet) < 0
    ensures r.Err? && r.error.OversizedFragment? <==>
      |content| + |mentionSnippet| > MarkdownMaxLen && SnippetMaxLen(mentionSnippet) >= 0 &&
      exists k :: 0 <= k < |Split(content, EmptyLine)| &&
        |Split(content, EmptyLine)[k]| + |EmptyLine| > SnippetMaxLen(mentionSnippet)
    ensures r.Err? && r.error.NegativeGrow? ==> r.error.count == SnippetMaxLen(mentionSnippet)
    ensures r.Err? && r.error.OversizedFragment? ==>
      r.error.limit == SnippetMaxLen(mentionSnippet) - |EmptyLine|
  {
    if |content| + |mentionSnippet| <= MarkdownMaxLen then Ok([content + mentionSnippet])
    else
      var limit := SnippetMaxLen(mentionSnippet);
      var fragments := Split(content, EmptyLine);
      if limit < 0 then Err(NegativeGrow(limit))
      else match FirstOversized(fragments, limit, 0)
      case Some(k) => Err(OversizedFragment(|fragments[k]|, limit - |EmptyLine|))
      case None => Ok(Decorate(Groups(fragments, limit), mentionSnippet))
  }

  /** One more fragment: the open body is closed when the fragment would
      overflow it, and the fragment then goes into the open body. */
  lemma PackStep(fragments: seq<string>, k: nat, limit: int)
    requires k < |fragments|
    ensures var p := Pack(fragments[..k], limit);
      var f := fragments[k];
      Pack(fragments[..k + 1], limit) ==
        if |Body(p.open)| + |f| + |EmptyLine| > limit then Packing(p.closed + [p.open], [f])
        else Packing(p.closed, p.open + [f])
  {
    assert fragments[..k + 1][..k] == fragments[..k];
  }

  /** Closing one more body appends it, with the suffix, to the messages. */
  lemma SuffixedSnoc(groups: seq<seq<string>>, g: seq<string>, mentionSnippet: string)
    ensures Suffixed(groups + [g], mentionSnippet) == Suffixed(groups, mentionSnippet) + [Body(g) + mentionSnippet]
  {
  }

  /** The fragment loop of `send` in a2w.go and the close after it: check
      each fragment, close the body when the next
      fragment would overflow it, and close the last body at the end; every
      closed body gets the mention suffix. */
  method PackSnippets(fragments: seq<string>, snippetMaxLen: int, mentionSnippet: string)
    returns (r: Result<seq<string>>)
    ensures r.Err? <==> FirstOversized(fragments, snippetMaxLen, 0).Some?
    ensures r.Err? ==> r.error == OversizedFragment(
      |fragments[FirstOversized(fragments, snippetMaxLen, 0).value]|, snippetMaxLen - |EmptyLine|)
    ensures r.Ok? ==> r.value == Suffixed(Groups(fragments, snippetMaxLen), mentionSnippet)
  {
    var msgs: seq<string> := [];
    var snippetBuilder := "";
    var k := 0;
    while k < |fragments|
      invariant 0 <= k <= |fragments|
      invariant FirstOversized(fragments, snippetMaxLen, 0) == FirstOversized(fragments, snippetMaxLen, k)
      invariant snippetBuilder == Body(Pack(fragments[..k], snippetMaxLen).open)
      invariant msgs == Suffixed(Pack(fragments[..k], snippetMaxLen).closed, mentionSnippet)
    {
      var fragment := fragments[k];
      if |fragment| + |EmptyLine| > snippetMaxLen {
        return Err(OversizedFragment(|fragment|, snippetMaxLen - |EmptyLine|));
      }
      ghost var p := Pack(fragments[..k], snippetMaxLen);
      PackStep(fragments, k, snippetMaxLen);
      if |snippetBuilder| + |fragment| + |EmptyLine| > snippetMaxLen {
        snippetBuilder := snippetBuilder + mentionSnippet;
        msgs := msgs + [snippetBuilder];
        snippetBuilder := "";
        SuffixedSnoc(p.closed, p.open, mentionSnippet);
      }
      snippetBuilder := snippetBuilder + EmptyLine + fragment;
      k := k + 1;
    }
    assert fragments[..k] == fragments;
    ghost var p := Pack(fragments, snippetMaxLen);
    snippetBuilder := snippetBuilder + mentionSnippet;
    msgs := msgs + [snippetBuilder];
    SuffixedSnoc(p.closed, p.open, mentionSnippet);
    r := Ok(msgs);
  }

  /** The header loop of `send` in a2w.go: once the count is known, prefix every message with
      its 1-based `(i/N)` header, in place. */
  method AddHeaders(msgs: seq<string>) returns (out: seq<string>)
    ensures |out| == |msgs|
    ensures forall i :: 0 <= i < |msgs| ==> out[i] == Header(i + 1, |msgs|) + msgs[i]
  {
    out := msgs;
    var index := 0;
    while index < |out|
      invariant |out| == |msgs| && 0 <= index <= |out|
      invariant forall j :: 0 <= j < index ==> out[j] == Header(j + 1, |msgs|) + msgs[j]
      invariant forall j :: index <= j < |out| ==> out[j] == msgs[j]
    {
      out := out[index := Header(index + 1, |out|) + out[index]];
      index := index + 1;
    }
  }

  /** Putting the `(i/N)` headers in front of the suffixed bodies gives the
      decorated messages. */
  lemma HeadersOnSuffixed(groups: seq<seq<string>>, mentionSnippet: string, msgs: seq<string>)
    requires |msgs| == |groups|
    requires forall i :: 0 <= i < |msgs| ==>
      msgs[i] == Header(i + 1, |msgs|) + Suffixed(groups, mentionSnippet)[i]
    ensures msgs == Decorate(groups, mentionSnippet)
  {
    var decorated := Decorate(groups, mentionSnippet);
    forall i | 0 <= i < |msgs| ensures msgs[i] == decorated[i] {
      var h, b := Header(i + 1, |groups|), Body(groups[i]);
      assert Suffixed(groups, mentionSnippet)[i] == b + mentionSnippet;
      assert decorated[i] == h + b + mentionSnippet;
    }
    assert |decorated| == |msgs|;
  }

  /** The mention suffix and segmentation steps of `send` in a2w.go: build
      the mention suffix, then segment the rendered content. The budget is
      checked for a negative value where a2w.go calls `Grow` with it, right
      after the split. */
  method Segment(content: string, mentions: seq<string>) returns (r: Result<seq<string>>)
    ensures r == Segmentation(content, MentionSnippet(mentions))
  {
    var mentionSnippet := BuildMentionSnippet(mentions);
    if |content| + |mentionSnippet| <= MarkdownMaxLen {
      r := Ok([content + mentionSnippet]);
    } else {
      var snippetMaxLen := MarkdownMaxLen - |SnippetHeader| - |mentionSnippet|;
      var fragments := Split(content, EmptyLine);
      if snippetMaxLen < 0 {
        return Err(NegativeGrow(snippetMaxLen));
      }
      r := PackSnippets(fragments, snippetMaxLen, mentionSnippet);
      if r.Ok? {
        var msgs := AddHeaders(r.value);
        HeadersOnSuffixed(Groups(fragments, snippetMaxLen), mentionSnippet, msgs);
        r := Ok(msgs);
      }
    }
  }
}
