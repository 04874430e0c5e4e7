/**
 The child list of one hovered `code.rust` element and the two handlers that
 change it: mouse-over appends a `Run` link (an `a.test-arrow` anchor) built
 from the element's text; mouse-out removes the first such link.

 Whether the event's related target lies inside the element is a parameter
 (`fromInside`); both handlers do nothing when it does.
 */
module Hover {
  import opened Chars
  import opened Results
  import opened Sample
  import opened Playpen
  import opened Uri
  import opened Feature

  /** A child node: ordinary content with its text, or a `Run` link. */
  datatype Node = Content(text: string) | RunLink(href: string)

  /** The visible label of the link. */
  const RunLabel: string := "Run"

  /** `textContent` of a child; the link reads as its label. */
  function TextContent(n: Node): string {
    match n
    case Content(t) => t
    case RunLink(_) => RunLabel
  }

  /** The `textContent` of every child, in child order. */
  function ChildTexts(children: seq<Node>): (r: seq<string>)
    ensures |r| == |children|
    ensures forall k | 0 <= k < |children| :: r[k] == TextContent(children[k])
  {
    seq(|children|, k requires 0 <= k < |children| => TextContent(children[k]))
  }

  /** Reading two runs of children reads each run in turn. */
  lemma ChildTextsConcat(a: seq<Node>, b: seq<Node>)
    ensures ChildTexts(a + b) == ChildTexts(a) + ChildTexts(b)
  {
    var l, r := ChildTexts(a + b), ChildTexts(a) + ChildTexts(b);
    forall k | 0 <= k < |l| ensures l[k] == r[k] {
      if k < |a| {
        assert (a + b)[k] == a[k];
      } else {
        assert (a + b)[k] == b[k - |a|];
      }
    }
  }

  /** The child nodes the script adds itself: the link built for `href`,
      after the existing children. */
  function WithRunLink(children: seq<Node>, href: string): (r: seq<Node>)
    ensures |r| == |children| + 1
    ensures r[..|children|] == children
    ensures r[|children|] == RunLink(href)
    ensures CountRunLinks(r) == CountRunLinks(children) + 1
  {
    var link := RunLink(href);
    CountRunLinksConcat(children, [link]);
    assert [link][1..] == [];
    assert (children + [link])[..|children|] == children;
    children + [link]
  }

  function CountRunLinks(children: seq<Node>): (n: nat)
    ensures n <= |children|
  {
    if |children| == 0 then 0
    else (if children[0].RunLink? then 1 else 0) + CountRunLinks(children[1..])
  }

  lemma {:induction false} CountRunLinksConcat(a: seq<Node>, b: seq<Node>)
    ensures CountRunLinks(a + b) == CountRunLinks(a) + CountRunLinks(b)
  {
    if |a| == 0 {
      assert a + b == b;
    } else {
      assert (a + b)[0] == a[0];
      assert (a + b)[1..] == a[1..] + b;
      CountRunLinksConcat(a[1..], b);
    }
  }

  /** True iff no child is a `Run` link. */
  predicate NoRunLink(children: seq<Node>) {
    forall k | 0 <= k < |children| :: !children[k].RunLink?
  }

  lemma {:induction false} NoRunLinkCount(children: seq<Node>)
    ensures NoRunLink(children) <==> CountRunLinks(children) == 0
  {
    if |children| > 0 {
      NoRunLinkCount(children[1..]);
      if !children[0].RunLink? && NoRunLink(children[1..]) {
        forall k | 0 <= k < |children| ensures !children[k].RunLink? {
          if k > 0 { assert children[k] == children[1..][k - 1]; }
        }
      }
      if NoRunLink(children) {
        forall k | 0 <= k < |children| - 1 ensures !children[1..][k].RunLink? {
          assert children[1..][k] == children[k + 1];
        }
      }
    }
  }

  /** `el.onmouseover`: unless the pointer comes from inside the element,
      append one `Run` link whose `href` carries the element's code. The
      link target uses the corrected feature test (`HrefIntended`). */
  function MouseOver(base: string, children: seq<Node>, fromInside: bool): (r: seq<Node>)
    ensures fromInside ==> r == children
    ensures !fromInside ==>
              && |r| == |children| + 1
              && r[..|children|] == children
              && r[|children|].RunLink?
              && CountRunLinks(r) == CountRunLinks(children) + 1
  {
    if fromInside then children
    else WithRunLink(children, HrefIntended(base, SampleText(ChildTexts(children))))
  }

  /** `el.onmouseover` with the feature test exactly as the source builds
      it: the appended link carries `encodeURIComponent(code)` after
      `?code=` and nothing after that, so it never asks for nightly. */
  function MouseOverAsWritten(base: string, children: seq<Node>, fromInside: bool): (r: seq<Node>)
    ensures fromInside ==> r == children
    ensures !fromInside ==>
              && |r| == |children| + 1
              && r[..|children|] == children
              && r[|children|].RunLink?
              && StartsWith(r[|children|].href, base + CodeParam)
              && r[|children|].href[|base| + |CodeParam|..]
                 == Encode(BuildCode(SampleText(ChildTexts(children))))
              && !EndsWith(r[|children|].href, NightlyChannel)
  {
    if fromInside then children
    else
      var sample := SampleText(ChildTexts(children));
      HrefNeverNightly(base, sample);
      WithRunLink(children, Href(base, sample))
  }

  /** The handler as written and the corrected one build the same children
      exactly when the element's code has no `#![feature(...)]` line. */
  lemma AsWrittenDiffersOnFeature(base: string, children: seq<Node>)
    ensures var code := BuildCode(SampleText(ChildTexts(children)));
            MouseOverAsWritten(base, children, false) == MouseOver(base, children, false)
            <==> !FeatureIntended(code)
  {
    var sample := SampleText(ChildTexts(children));
    var code := BuildCode(sample);
    var written := MouseOverAsWritten(base, children, false);
    var intended := MouseOver(base, children, false);
    assert written[|children|] == RunLink(Href(base, sample));
    assert intended[|children|] == RunLink(HrefIntended(base, sample));
    if !FeatureIntended(code) {
      var prefix := base + CodeParam;
      JoinedAt(Href(base, sample), prefix, Encode(code));
      JoinedAt(HrefIntended(base, sample), prefix, Encode(code));
      assert written == children + [written[|children|]];
      assert intended == children + [intended[|children|]];
    } else {
      HrefNeverNightly(base, sample);
    }
  }

  /** A string that starts with `p` and continues with `q` is `p + q`. */
  lemma JoinedAt(r: string, p: string, q: string)
    requires StartsWith(r, p) && r[|p|..] == q
    ensures r == p + q
  {
    assert r == r[..|p|] + r[|p|..];
  }

  /** A second mouse-over without a mouse-out reads the link's label as one
      more child text. */
  lemma RehoverReadsRun(base: string, children: seq<Node>)
    ensures ChildTexts(MouseOver(base, children, false)) == ChildTexts(children) + [RunLabel]
  {
    LinkReadsAsLabel(children, HrefIntended(base, SampleText(ChildTexts(children))));
  }

  lemma LinkReadsAsLabel(children: seq<Node>, href: string)
    ensures ChildTexts(WithRunLink(children, href)) == ChildTexts(children) + [RunLabel]
  {
    var r := WithRunLink(children, href);
    assert r == children + [RunLink(href)];
    ChildTextsConcat(children, [RunLink(href)]);
    assert ChildTexts([RunLink(href)])[0] == RunLabel;
  }

  /** The appended link opens the playground on the element's code: after
      `?code=` its target holds `encodeURIComponent` of the code built from
      the element's text, which decodes back to that code, followed by `&version=nightly` exactly
      when a line of that code is a `#![feature(...)]` attribute. */
  lemma OverLinkCarriesCode(base: string, children: seq<Node>)
    ensures var code := BuildCode(SampleText(ChildTexts(children)));
            var href := MouseOver(base, children, false)[|children|].href;
            var n := |ChannelIntended(code)|;
            && StartsWith(href, base + CodeParam)
            && |href| - n >= |base| + |CodeParam|
            && href[|base| + |CodeParam|..|href| - n] == Encode(code)
            && Decode(href[|base| + |CodeParam|..|href| - n]) == Ok(code)
            && (FeatureIntended(code) <==> EndsWith(href, NightlyChannel))
  {
    var r := MouseOver(base, children, false);
    assert r[|children|] == RunLink(HrefIntended(base, SampleText(ChildTexts(children))));
  }

  /** The position of the first `Run` link: what
      `querySelectorAll('a.test-arrow')[0]` finds among the children. */
  function FirstRunLink(children: seq<Node>): (i: nat)
    requires CountRunLinks(children) > 0
    ensures i < |children| && children[i].RunLink?
    ensures NoRunLink(children[..i])
  {
    if children[0].RunLink? then 0
    else
      var i := FirstRunLink(children[1..]) + 1;
      assert children[..i] == [children[0]] + children[1..][..i - 1];
      i
  }

  /** `el.onmouseout`: unless the pointer moves to inside the element,
      remove the first `Run` link; `removeChild(undefined)` throws a
      TypeError when there is none. */
  function MouseOut(children: seq<Node>, toInside: bool): (r: Result<seq<Node>>)
    ensures toInside ==> r == Ok(children)
    ensures !toInside ==> (r.Err? <==> CountRunLinks(children) == 0)
    ensures !toInside && r.Err? ==> r.error == TypeError
    ensures !toInside && r.Ok? ==>
              && CountRunLinks(r.value) == CountRunLinks(children) - 1
              && exists i | 0 <= i < |children| ::
                   && children[i].RunLink?
                   && NoRunLink(children[..i])
                   && r.value == children[..i] + children[i + 1..]
  {
    if toInside then Ok(children)
    else if CountRunLinks(children) == 0 then Err(TypeError)
    else
      var i := FirstRunLink(children);
      assert children == children[..i] + [children[i]] + children[i + 1..];
      CountRunLinksConcat(children[..i] + [children[i]], children[i + 1..]);
      CountRunLinksConcat(children[..i], [children[i]]);
      assert [children[i]][1..] == [];
      NoRunLinkCount(children[..i]);
      CountRunLinksConcat(children[..i], children[i + 1..]);
      Ok(children[..i] + children[i + 1..])
  }

  /** A link preceded only by content is the first link. */
  lemma {:induction false} FirstRunLinkIs(children: seq<Node>, j: nat)
    requires j < |children| && children[j].RunLink?
    requires NoRunLink(children[..j])
    ensures CountRunLinks(children) > 0
    ensures FirstRunLink(children) == j
  {
    if j == 0 {
    } else {
      assert children[0] == children[..j][0];
      var rest := children[1..][..j - 1];
      assert NoRunLink(rest) by {
        forall k | 0 <= k < |rest| ensures !rest[k].RunLink? {
          assert rest[k] == children[..j][k + 1];
        }
      }
      FirstRunLinkIs(children[1..], j - 1);
    }
  }

  /** Leaving removes the one link appended after link-free children. */
  lemma OutRemovesTheLink(start: seq<Node>, link: Node)
    requires CountRunLinks(start) == 0 && link.RunLink?
    ensures MouseOut(start + [link], false) == Ok(start)
  {
    var children := start + [link];
    NoRunLinkCount(start);
    assert children[..|start|] == start;
    FirstRunLinkIs(children, |start|);
    assert children[|start| + 1..] == [];
    assert children[..|start|] + children[|start| + 1..] == start;
  }

  /** Hovering over an element without a link and leaving it again restores
      its children. */
  lemma OverThenOutRestores(base: string, children: seq<Node>)
    requires CountRunLinks(children) == 0
    ensures MouseOut(MouseOver(base, children, false), false) == Ok(children)
  {
    var over := MouseOver(base, children, false);
    var link := over[|children|];
    assert over == children + [link];
    OutRemovesTheLink(children, link);
  }

  /** A pointer event reaching the element. */
  datatype Event = Over(fromInside: bool) | Out(toInside: bool)

  function Step(base: string, children: seq<Node>, e: Event): Result<seq<Node>> {
    match e
    case Over(inside) => Ok(MouseOver(base, children, inside))
    case Out(inside) => MouseOut(children, inside)
  }

  /** The children after a series of events, or the first exception. */
  function Replay(base: string, children: seq<Node>, events: seq<Event>): Result<seq<Node>>
    decreases |events|
  {
    if |events| == 0 then Ok(children)
    else
      match Step(base, children, events[0])
      case Err(e) => Err(e)
      case Ok(next) => Replay(base, next, events[1..])
  }

  /** Whether the pointer is over the element after event `e`. */
  function After(e: Event, hovering: bool): bool {
    match e
    case Over(inside) => if inside then hovering else true
    case Out(inside) => if inside then hovering else false
  }

  /** The pointer enters the element from outside only while it is outside
      and leaves it for outside only while it is over it. */
  predicate Allowed(e: Event, hovering: bool) {
    match e
    case Over(inside) => inside || !hovering
    case Out(inside) => inside || hovering
  }

  /** The browser's order of events for one pointer path; moves between the
      element and its own descendants may come at any time. `hovering` is
      where the path starts. */
  predicate PointerPath(events: seq<Event>, hovering: bool)
    decreases |events|
  {
    |events| == 0 || (Allowed(events[0], hovering) && PointerPath(events[1..], After(events[0], hovering)))
  }

  /** Whether the pointer is over the element at the end of the path. */
  function EndsHovering(events: seq<Event>, hovering: bool): bool
    decreases |events|
  {
    if |events| == 0 then hovering else EndsHovering(events[1..], After(events[0], hovering))
  }

  /** The children while the pointer follows a path over an element that had
      no link: the original children, plus one link while hovering. */
  predicate Hovered(children: seq<Node>, start: seq<Node>, hovering: bool) {
    && CountRunLinks(start) == 0
    && |children| == |start| + (if hovering then 1 else 0)
    && children[..|start|] == start
    && (hovering ==> children[|start|].RunLink?)
  }

  /** Along any pointer path over an element that starts without a link, no
      handler throws, the element holds exactly one link while hovered and
      none otherwise, and once the pointer has left the children are the
      original ones. */
  lemma {:induction false} PointerPathKeepsOneLink(
    base: string, children: seq<Node>, start: seq<Node>, events: seq<Event>, hovering: bool)
    requires Hovered(children, start, hovering)
    requires PointerPath(events, hovering)
    ensures Replay(base, children, events).Ok?
    ensures Hovered(Replay(base, children, events).value, start, EndsHovering(events, hovering))
    decreases |events|
  {
    if |events| > 0 {
      var next := StepKeeps(base, children, start, events[0], hovering);
      ReplayStep(base, children, events, next);
      PointerPathKeepsOneLink(base, next, start, events[1..], After(events[0], hovering));
    }
  }

  /** Leaving after hovering gives back the original children; while
      hovering there is exactly one link. */
  lemma HoveredMeans(children: seq<Node>, start: seq<Node>, hovering: bool)
    requires Hovered(children, start, hovering)
    ensures CountRunLinks(children) == (if hovering then 1 else 0)
    ensures !hovering ==> children == start
  {
    if hovering {
      assert children == start + [children[|start|]];
      CountRunLinksConcat(start, [children[|start|]]);
      assert [children[|start|]][1..] == [];
    } else {
      assert children == children[..|start|];
    }
  }

  /** One allowed event keeps the children in the hovered shape. */
  lemma StepKeeps(base: string, children: seq<Node>, start: seq<Node>, e: Event, hovering: bool)
    returns (next: seq<Node>)
    requires Hovered(children, start, hovering) && Allowed(e, hovering)
    ensures Step(base, children, e) == Ok(next)
    ensures Hovered(next, start, After(e, hovering))
  {
    if e == Over(false) {
      assert children == start;
      var link := EnterAppends(base, start);
      next := start + [link];
      assert next[..|start|] == start;
    } else if e == Out(false) {
      var link := children[|start|];
      assert children == start + [link];
      OutRemovesTheLink(start, link);
      next := start;
    } else {
      InsideKeeps(base, children, e);
      next := children;
    }
  }

  /** One successful step, then the rest of the events. */
  lemma ReplayStep(base: string, children: seq<Node>, events: seq<Event>, next: seq<Node>)
    requires |events| > 0 && Step(base, children, events[0]) == Ok(next)
    ensures Replay(base, children, events) == Replay(base, next, events[1..])
  {
  }

  /** Entering from outside appends one link. */
  lemma EnterAppends(base: string, children: seq<Node>) returns (link: Node)
    ensures link.RunLink?
    ensures Step(base, children, Over(false)) == Ok(children + [link])
  {
    var next := MouseOver(base, children, false);
    link := next[|children|];
    assert next == children + [link];
  }

  /** Moves between the element and its descendants change nothing. */
  lemma InsideKeeps(base: string, children: seq<Node>, e: Event)
    requires e.Over? ==> e.fromInside
    requires e.Out? ==> e.toInside
    ensures Step(base, children, e) == Ok(children)
  {
  }

  /** A whole session from outside, over an element without a link: no
      handler throws, and once the pointer is outside again the element has
      its original children. */
  lemma SessionRestores(base: string, start: seq<Node>, events: seq<Event>)
    requires CountRunLinks(start) == 0
    requires PointerPath(events, false)
    ensures Replay(base, start, events).Ok?
    ensures var final := Replay(base, start, events).value;
            && CountRunLinks(final) == (if EndsHovering(events, false) then 1 else 0)
            && (!EndsHovering(events, false) ==> final == start)
  {
    assert start[..|start|] == start;
    PointerPathKeepsOneLink(base, start, start, events, false);
    HoveredMeans(Replay(base, start, events).value, start, EndsHovering(events, false));
  }
}
