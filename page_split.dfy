/** The page split of auto_tagging/utils.py: two walks over the siblings of a
    page marker, and `split_input_html`, which cuts a document into the cover
    page (before the first marker) and everything after it.

    The parsed document is modelled as the flat sequence of sibling nodes that
    holds the markers; a marker is identified by its index in that sequence. */
module PageSplit {
  import opened Wrappers
  import opened Strings

  datatype Node =
    | Element(name: string, markup: string)
    | Text(text: string)
    | Comment(text: string)

  /** `str(node)`: an element's markup; the bare string of a text or comment
      node (a bs4 `Comment` is a string subclass, so `str` drops `<!-- -->`). */
  function Serialize(n: Node): string
  {
    match n
    case Element(_, m) => m
    case Text(t) => t
    case Comment(t) => t
  }

  /** Python truthiness of a sibling: a tag is always true, a string node is
      true when it is non-empty. */
  predicate Truthy(n: Node)
  {
    n.Element? || Serialize(n) != []
  }

  function SerializeAll(ns: seq<Node>): string
  {
    if ns == [] then [] else Serialize(ns[0]) + SerializeAll(ns[1..])
  }

  /** The markup of the element siblings among `ns`, in document order. */
  function ElementsMarkup(ns: seq<Node>): string
  {
    if ns == [] then []
    else ElementsMarkup(ns[..|ns| - 1]) + (if ns[|ns| - 1].Element? then Serialize(ns[|ns| - 1]) else [])
  }

  // ---------------------------------------------------------------------------
  // extract_content_until_comment

  /** `find_previous_sibling()` from position `i`: the nearest element before
      it (text and comment nodes are not tags and are passed over). */
  function PrevElement(sibs: seq<Node>, i: nat): (r: Option<nat>)
    requires i <= |sibs|
    ensures r.Some? ==> r.value < i && sibs[r.value].Element?
    ensures r.Some? ==> forall j :: r.value < j < i ==> !sibs[j].Element?
    ensures r.None? ==> forall j :: 0 <= j < i ==> !sibs[j].Element?
  {
    if i == 0 then None
    else if sibs[i - 1].Element? then Some(i - 1)
    else PrevElement(sibs, i - 1)
  }

  /** What the backward walk collects from element `cur` onwards: it stops
      after an element named "comment", otherwise it goes on to the previous
      element; each element is put in front of what was collected so far. */
  function WalkBack(sibs: seq<Node>, cur: Option<nat>): string
    requires cur.Some? ==> cur.value < |sibs|
    decreases if cur.Some? then cur.value + 1 else 0
  {
    match cur
    case None => []
    case Some(j) =>
      if sibs[j].Element? && sibs[j].name == "comment" then Serialize(sibs[j])
      else WalkBack(sibs, PrevElement(sibs, j)) + Serialize(sibs[j])
  }

  /** The content `extract_content_until_comment` returns for the marker at
      `start`. */
  function UntilComment(sibs: seq<Node>, start: nat): string
    requires start < |sibs|
  {
    WalkBack(sibs, PrevElement(sibs, start))
  }

  method ExtractContentUntilComment(sibs: seq<Node>, start: nat) returns (content: string)
    requires start < |sibs|
    ensures content == UntilComment(sibs, start)
  {
    content := "";
    var curr: Option<nat> := PrevElement(sibs, start);
    while curr.Some?
      invariant curr.Some? ==> curr.value < |sibs|
      invariant UntilComment(sibs, start) == WalkBack(sibs, curr) + content
      decreases if curr.Some? then curr.value + 1 else 0
    {
      var node := sibs[curr.value];
      content := Serialize(node) + content;
      if node.Element? && node.name == "comment" {
        return;
      }
      curr := PrevElement(sibs, curr.value);
    }
  }

  /** Unless an element named "comment" stops it, the backward walk returns
      the markup of every element before the marker, in document order. */
  lemma {:induction false} UntilCommentInDocumentOrder(sibs: seq<Node>, i: nat)
    requires i <= |sibs|
    requires forall j :: 0 <= j < i && sibs[j].Element? ==> sibs[j].name != "comment"
    ensures WalkBack(sibs, PrevElement(sibs, i)) == ElementsMarkup(sibs[..i])
  {
    if i > 0 {
      UntilCommentInDocumentOrder(sibs, i - 1);
      assert sibs[..i][..i - 1] == sibs[..i - 1];
    }
  }

  // ---------------------------------------------------------------------------
  // extract_content_between_comments

  /** The forward walk stops at a falsy sibling or at one equal to `end`. */
  predicate Stops(n: Node, end: Option<Node>)
  {
    !Truthy(n) || (end.Some? && n == end.value)
  }

  /** What the forward walk collects from position `i` onwards. */
  function WalkForward(sibs: seq<Node>, i: nat, end: Option<Node>): string
    decreases |sibs| - i
  {
    if i >= |sibs| || Stops(sibs[i], end) then []
    else Serialize(sibs[i]) + WalkForward(sibs, i + 1, end)
  }

  /** The content `extract_content_between_comments` returns for the marker at
      `start`. */
  function BetweenComments(sibs: seq<Node>, start: nat, end: Option<Node>): string
  {
    WalkForward(sibs, start + 1, end)
  }

  method ExtractContentBetweenComments(sibs: seq<Node>, start: nat, end: Option<Node>)
    returns (content: string)
    requires start < |sibs|
    ensures content == BetweenComments(sibs, start, end)
  {
    // Each turn is matched against one unfolding of WalkForward.
    hide WalkForward, Serialize, Stops;
    content := "";
    var i := start + 1;
    while i < |sibs| && !Stops(sibs[i], end)
      invariant start + 1 <= i <= |sibs|
      invariant BetweenComments(sibs, start, end) == content + WalkForward(sibs, i, end)
      decreases |sibs| - i
    {
      WalkForwardUnfold(sibs, i, end);
      content := content + Serialize(sibs[i]);
      i := i + 1;
    }
    WalkForwardUnfold(sibs, i, end);
  }

  lemma WalkForwardUnfold(sibs: seq<Node>, i: nat, end: Option<Node>)
    ensures WalkForward(sibs, i, end) ==
              if i >= |sibs| || Stops(sibs[i], end) then [] else Serialize(sibs[i]) + WalkForward(sibs, i + 1, end)
  {
  }

  /** The index where the forward walk from `i` stops. */
  function FirstStop(sibs: seq<Node>, i: nat, end: Option<Node>): (k: nat)
    requires i <= |sibs|
    ensures i <= k <= |sibs|
    ensures k < |sibs| ==> Stops(sibs[k], end)
    ensures forall j :: i <= j < k ==> !Stops(sibs[j], end)
    decreases |sibs| - i
  {
    if i == |sibs| || Stops(sibs[i], end) then i else FirstStop(sibs, i + 1, end)
  }

  /** The forward walk is the serialisation of the siblings strictly after the
      start, up to (not including) the first one that stops it. */
  lemma {:induction false} WalkForwardIsSlice(sibs: seq<Node>, i: nat, end: Option<Node>)
    requires i <= |sibs|
    ensures WalkForward(sibs, i, end) == SerializeAll(sibs[i..FirstStop(sibs, i, end)])
    decreases |sibs| - i
  {
    if i < |sibs| && !Stops(sibs[i], end) {
      WalkForwardIsSlice(sibs, i + 1, end);
      var k := FirstStop(sibs, i, end);
      assert sibs[i..k][1..] == sibs[i + 1..k];
    }
  }

  // ---------------------------------------------------------------------------
  // split_input_html

  /** A `<!-- Field: Page; ... -->` comment. */
  predicate IsPageComment(n: Node)
  {
    n.Comment? && Contains(n.text, "Field: Page;")
  }

  /** A tag whose name matches `^hr`. */
  predicate IsPageBreak(n: Node)
  {
    n.Element? && "hr" <= n.name
  }

  function FirstPageComment(sibs: seq<Node>, from: nat): (r: Option<nat>)
    ensures r.Some? ==> from <= r.value < |sibs| && IsPageComment(sibs[r.value])
    ensures r.Some? ==> forall j :: from <= j < r.value ==> !IsPageComment(sibs[j])
    ensures r.None? ==> forall j :: from <= j < |sibs| ==> !IsPageComment(sibs[j])
    decreases |sibs| - from
  {
    if from >= |sibs| then None
    else if IsPageComment(sibs[from]) then Some(from)
    else FirstPageComment(sibs, from + 1)
  }

  function CountPageBreaks(ns: seq<Node>): nat
  {
    if ns == [] then 0 else (if IsPageBreak(ns[0]) then 1 else 0) + CountPageBreaks(ns[1..])
  }

  function FirstPageBreak(sibs: seq<Node>, from: nat): (r: Option<nat>)
    ensures r.Some? ==> from <= r.value < |sibs| && IsPageBreak(sibs[r.value])
    ensures r.Some? ==> forall j :: from <= j < r.value ==> !IsPageBreak(sibs[j])
    ensures r.None? ==> forall j :: from <= j < |sibs| ==> !IsPageBreak(sibs[j])
    decreases |sibs| - from
  {
    if from >= |sibs| then None
    else if IsPageBreak(sibs[from]) then Some(from)
    else FirstPageBreak(sibs, from + 1)
  }

  /** `(page_html_data, second_half)`: the cover page and the remainder. */
  datatype Halves = Halves(cover: Option<string>, rest: Option<string>)

  /** Halves cut at the marker at index `m`. */
  function CutAt(sibs: seq<Node>, m: nat): Halves
    requires m < |sibs|
  {
    Halves(Some(UntilComment(sibs, m)), Some(BetweenComments(sibs, m, None)))
  }

  /** `split_input_html`, after parsing. A document with exactly one `hr`
      marker and no comment marker leaves both results unassigned, which
      Python reports when they are returned. */
  function SplitInputHtml(sibs: seq<Node>): Result<Halves>
  {
    match FirstPageComment(sibs, 0)
    case Some(m) => Success(CutAt(sibs, m))
    case None =>
      match FirstPageBreak(sibs, 0)
      case None => Success(Halves(None, None))
      case Some(m) =>
        if CountPageBreaks(sibs) > 1 then Success(CutAt(sibs, m)) else Failure(UnboundLocal)
  }

  lemma {:induction false} CountPageBreaksFound(ns: seq<Node>)
    ensures CountPageBreaks(ns) > 0 <==> FirstPageBreak(ns, 0).Some?
  {
    if ns != [] {
      CountPageBreaksFound(ns[1..]);
      if !IsPageBreak(ns[0]) {
        if FirstPageBreak(ns[1..], 0).Some? {
          var k := FirstPageBreak(ns[1..], 0).value;
          assert IsPageBreak(ns[k + 1]);
        } else {
          assert forall j :: 1 <= j < |ns| ==> ns[j] == ns[1..][j - 1];
        }
      }
    }
  }

  /** The cut point of `split_input_html`: the first comment marker, or, when
      there is none, the first `hr` of at least two; with no marker at all
      both halves are `None`; with a single `hr` the call fails. */
  lemma SplitInputHtmlCases(sibs: seq<Node>)
    ensures var r := SplitInputHtml(sibs);
      && (FirstPageComment(sibs, 0).Some? ==> r == Success(CutAt(sibs, FirstPageComment(sibs, 0).value)))
      && (FirstPageComment(sibs, 0).None? && CountPageBreaks(sibs) > 1 ==>
            FirstPageBreak(sibs, 0).Some? && r == Success(CutAt(sibs, FirstPageBreak(sibs, 0).value)))
      && (FirstPageComment(sibs, 0).None? && CountPageBreaks(sibs) == 1 ==> r == Failure(UnboundLocal))
      && (FirstPageComment(sibs, 0).None? && FirstPageBreak(sibs, 0).None? ==> r == Success(Halves(None, None)))
  {
    CountPageBreaksFound(sibs);
  }

  lemma {:induction false} SerializeAllAppend(a: seq<Node>, b: seq<Node>)
    ensures SerializeAll(a + b) == SerializeAll(a) + SerializeAll(b)
    decreases |a|
  {
    if a == [] {
      assert a + b == b;
    } else {
      assert (a + b)[0] == a[0];
      assert (a + b)[1..] == a[1..] + b;
      SerializeAllAppend(a[1..], b);
    }
  }

  lemma {:induction false} ElementsMarkupAllElements(ns: seq<Node>)
    requires forall j :: 0 <= j < |ns| ==> ns[j].Element?
    ensures ElementsMarkup(ns) == SerializeAll(ns)
    decreases |ns|
  {
    hide Serialize;
    if ns != [] {
      var init := ns[..|ns| - 1];
      ElementsMarkupAllElements(init);
      assert ns == init + [ns[|ns| - 1]];
      SerializeAllAppend(init, [ns[|ns| - 1]]);
    }
  }

  lemma CoverIsElementsBefore(sibs: seq<Node>, m: nat)
    requires m < |sibs|
    requires forall j :: 0 <= j < m ==> sibs[j].Element? && sibs[j].name != "comment"
    ensures UntilComment(sibs, m) == SerializeAll(sibs[..m])
  {
    UntilCommentInDocumentOrder(sibs, m);
    ElementsMarkupAllElements(sibs[..m]);
  }

  lemma RestIsAllAfter(sibs: seq<Node>, m: nat)
    requires m < |sibs|
    requires forall j :: m < j < |sibs| ==> Truthy(sibs[j])
    ensures BetweenComments(sibs, m, None) == SerializeAll(sibs[m + 1..])
  {
    WalkForwardIsSlice(sibs, m + 1, None);
    var k := FirstStop(sibs, m + 1, None);
    assert k == |sibs|;
    assert sibs[m + 1..k] == sibs[m + 1..];
  }

  lemma SerializeAround(sibs: seq<Node>, m: nat)
    requires m < |sibs|
    ensures SerializeAll(sibs) == SerializeAll(sibs[..m]) + Serialize(sibs[m]) + SerializeAll(sibs[m + 1..])
  {
    var before, tail := sibs[..m], sibs[m..];
    assert sibs == before + tail;
    SerializeAllAppend(before, tail);
    SerializeAllCons(tail);
    assert tail[1..] == sibs[m + 1..];
    AppendAssoc(SerializeAll(before), Serialize(sibs[m]), SerializeAll(sibs[m + 1..]));
  }

  lemma SerializeAllCons(ns: seq<Node>)
    requires ns != []
    ensures SerializeAll(ns) == Serialize(ns[0]) + SerializeAll(ns[1..])
  {
  }

  /** Neither half holds the marker: when everything before the marker is an
      element (none named "comment") and nothing after it is an empty string
      node, the cover page, the marker and the remainder make up the whole
      document. */
  lemma SplitPartitions(sibs: seq<Node>, m: nat)
    requires m < |sibs|
    requires forall j :: 0 <= j < m ==> sibs[j].Element? && sibs[j].name != "comment"
    requires forall j :: m < j < |sibs| ==> Truthy(sibs[j])
    ensures CutAt(sibs, m).cover.value + Serialize(sibs[m]) + CutAt(sibs, m).rest.value
            == SerializeAll(sibs)
  {
    CoverIsElementsBefore(sibs, m);
    RestIsAllAfter(sibs, m);
    SerializeAround(sibs, m);
  }
}
