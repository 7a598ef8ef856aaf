/**
 * The `MutationObserver` callback's test: does a batch of DOM mutations add
 * headings, so that the anchors and the sidebar need rebuilding?
 */
module Mutations {
  import opened Dom

  /** `MutationRecord.type`. */
  datatype MutationType = ChildList | Attributes | CharacterData

  /** A mutation record: its type and its `addedNodes`; `Text` stands for every non-element node. */
  datatype MutationRecord = MutationRecord(kind: MutationType, addedNodes: seq<Node>)

  /** The class of the sidebar container `createTOC` attaches to the page. */
  const SidebarClass := "github-discuss-toc"

  /** The sidebar container `createTOC` builds, holding the entries `list`. */
  function Sidebar(list: seq<Node>): Node
  {
    Element("ASIDE", SidebarClass, map["aria-label" := "Table of Contents"], [
      Element("DIV", "toc-header", map[], [
        Text("\n      "),
        Element("H2", "toc-title", map[], [Text("Table of Contents")]),
        Text("\n    ")]),
      Element("NAV", "toc-list", map[], list)])
  }

  /** An added node the callback counts: an element that is an `H1`–`H6` or has one inside. */
  predicate AddsHeading(node: Node)
  {
    node.Element? && (IsHeadingTag(node.tagName) || ContainsHeading(node.children))
  }

  /** The extension's own sidebar container. */
  predicate IsSidebar(node: Node)
  {
    node.Element? && node.tagName == "ASIDE" && node.className == SidebarClass
  }

  /**
   * The node test; with `skipSidebar` the extension's own sidebar is not
   * taken for page content.
   */
  predicate Triggers(node: Node, skipSidebar: bool)
  {
    AddsHeading(node) && !(skipSidebar && IsSidebar(node))
  }

  /** `Array.from(addedNodes).some(...)`. */
  predicate SomeNodeTriggers(nodes: seq<Node>, skipSidebar: bool)
  {
    nodes != [] && (Triggers(nodes[0], skipSidebar) || SomeNodeTriggers(nodes[1..], skipSidebar))
  }

  /** `mutations.some(...)`: only `childList` records are looked at. */
  predicate SomeRecordTriggers(ms: seq<MutationRecord>, skipSidebar: bool)
  {
    ms != []
    && ((ms[0].kind == ChildList && SomeNodeTriggers(ms[0].addedNodes, skipSidebar))
        || SomeRecordTriggers(ms[1..], skipSidebar))
  }

  /** `hasNewHeadings` as written: the sidebar's own `h2.toc-title` counts as a new heading. */
  predicate HasNewHeadingsAsWritten(ms: seq<MutationRecord>)
  {
    SomeRecordTriggers(ms, false)
  }

  /** `hasNewHeadings` as intended: headings the page adds, not the sidebar the extension adds. */
  predicate HasNewHeadings(ms: seq<MutationRecord>)
  {
    SomeRecordTriggers(ms, true)
  }

  /** The inner `some` holds exactly when some added node triggers. */
  lemma {:induction false} SomeNodeTriggersIff(nodes: seq<Node>, skipSidebar: bool)
    ensures SomeNodeTriggers(nodes, skipSidebar) <==> exists j :: 0 <= j < |nodes| && Triggers(nodes[j], skipSidebar)
  {
    if nodes != [] {
      SomeNodeTriggersIff(nodes[1..], skipSidebar);
      if Triggers(nodes[0], skipSidebar) {
        assert Triggers(nodes[0], skipSidebar);
      } else if exists j :: 0 <= j < |nodes| && Triggers(nodes[j], skipSidebar) {
        var j :| 0 <= j < |nodes| && Triggers(nodes[j], skipSidebar);
        assert nodes[1..][j - 1] == nodes[j];
      }
    }
  }

  /** A record triggers when it is a `childList` record with an added node that triggers. */
  ghost predicate RecordTriggers(m: MutationRecord, skipSidebar: bool)
  {
    m.kind == ChildList && exists j :: 0 <= j < |m.addedNodes| && Triggers(m.addedNodes[j], skipSidebar)
  }

  /** The outer `some` holds exactly when some record triggers. */
  lemma {:induction false} SomeRecordTriggersIff(ms: seq<MutationRecord>, skipSidebar: bool)
    ensures SomeRecordTriggers(ms, skipSidebar) <==> exists i :: 0 <= i < |ms| && RecordTriggers(ms[i], skipSidebar)
  {
    if ms != [] {
      SomeNodeTriggersIff(ms[0].addedNodes, skipSidebar);
      SomeRecordTriggersIff(ms[1..], skipSidebar);
      if exists i :: 0 <= i < |ms| && RecordTriggers(ms[i], skipSidebar) {
        var i :| 0 <= i < |ms| && RecordTriggers(ms[i], skipSidebar);
        if i > 0 {
          assert ms[1..][i - 1] == ms[i];
        }
      }
    }
  }

  /**
   * The predicate holds iff some `childList` record added an element that is
   * an `H1`–`H6` or contains one.
   */
  lemma HasNewHeadingsAsWrittenIff(ms: seq<MutationRecord>)
    ensures HasNewHeadingsAsWritten(ms) <==>
              exists i, j :: 0 <= i < |ms| && ms[i].kind == ChildList && 0 <= j < |ms[i].addedNodes| && AddsHeading(ms[i].addedNodes[j])
  {
    SomeRecordTriggersIff(ms, false);
    if HasNewHeadingsAsWritten(ms) {
      var i :| 0 <= i < |ms| && RecordTriggers(ms[i], false);
      var j :| 0 <= j < |ms[i].addedNodes| && Triggers(ms[i].addedNodes[j], false);
      assert AddsHeading(ms[i].addedNodes[j]);
    }
  }

  /**
   * The corrected predicate holds iff some `childList` record added an element
   * other than the sidebar that is an `H1`–`H6` or contains one.
   */
  lemma HasNewHeadingsIff(ms: seq<MutationRecord>)
    ensures HasNewHeadings(ms) <==>
              exists i, j :: 0 <= i < |ms| && ms[i].kind == ChildList && 0 <= j < |ms[i].addedNodes|
                             && AddsHeading(ms[i].addedNodes[j]) && !IsSidebar(ms[i].addedNodes[j])
  {
    SomeRecordTriggersIff(ms, true);
    if HasNewHeadings(ms) {
      var i :| 0 <= i < |ms| && RecordTriggers(ms[i], true);
      var j :| 0 <= j < |ms[i].addedNodes| && Triggers(ms[i].addedNodes[j], true);
      assert AddsHeading(ms[i].addedNodes[j]) && !IsSidebar(ms[i].addedNodes[j]);
    }
  }

  /**
   * Records of another type and added text nodes never trigger processing,
   * whichever form of the predicate is used.
   */
  lemma QuietBatch(ms: seq<MutationRecord>, skipSidebar: bool)
    requires forall i :: 0 <= i < |ms| && ms[i].kind == ChildList ==>
               forall j :: 0 <= j < |ms[i].addedNodes| ==> ms[i].addedNodes[j].Text?
    ensures !SomeRecordTriggers(ms, skipSidebar)
  {
    SomeRecordTriggersIff(ms, skipSidebar);
  }

  /**
   * Without the sidebar among the added nodes, the corrected predicate and the
   * one as written agree.
   */
  lemma {:induction false} AgreeWithoutSidebar(ms: seq<MutationRecord>)
    requires forall i :: 0 <= i < |ms| ==> forall j :: 0 <= j < |ms[i].addedNodes| ==> !IsSidebar(ms[i].addedNodes[j])
    ensures HasNewHeadings(ms) == HasNewHeadingsAsWritten(ms)
  {
    SomeRecordTriggersIff(ms, true);
    SomeRecordTriggersIff(ms, false);
    assert forall i :: 0 <= i < |ms| ==> (RecordTriggers(ms[i], true) <==> RecordTriggers(ms[i], false));
  }

  /**
   * Attaching the sidebar is itself a `childList` mutation that adds an element
   * holding an `H2`: the predicate as written reports new headings for it, the
   * corrected one does not.
   */
  lemma SidebarRetriggers(list: seq<Node>)
    ensures HasNewHeadingsAsWritten([MutationRecord(ChildList, [Sidebar(list)])])
    ensures !HasNewHeadings([MutationRecord(ChildList, [Sidebar(list)])])
  {
    var ms := [MutationRecord(ChildList, [Sidebar(list)])];
    var header := Sidebar(list).children;
    assert ContainsHeading(header[0].children[1..]);
    assert ContainsHeading(header);
    assert ms[1..] == [] && ms[0].addedNodes[1..] == [];
    assert IsSidebar(Sidebar(list));
    assert !SomeNodeTriggers(ms[0].addedNodes, true);
    assert !SomeRecordTriggers(ms[1..], true);
    assert !SomeRecordTriggers(ms, true);
  }
}
