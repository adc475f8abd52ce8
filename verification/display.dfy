/**
 * What a shown step displays besides its position: the progress percentage,
 * the "active / total" step counter adjusted for bypassed steps, the states
 * of the previous and next buttons, and the intro text assembled for the
 * active user roles.
 */
module Display {
  import opened Common
  import Navigation
  import Collector

  // ---------------------------------------------------------------------------
  // _getProgress
  // ---------------------------------------------------------------------------

  /**
   * _getProgress: the share of the tour reached by showing index `current`,
   * in percent. With no items the division gives Infinity or NaN, modelled
   * as None.
   */
  function Progress(current: int, count: nat): (r: Option<real>)
    ensures r.None? <==> count == 0
    ensures r.Some? ==> r.value * count as real == (current + 1) as real * 100.0
  {
    if count == 0 then None else Some((current + 1) as real / count as real * 100.0)
  }

  /** Showing any step gives a share above 0 and at most 100; the last step gives exactly 100. */
  lemma ProgressBounds(current: int, count: nat)
    requires 0 <= current < count
    ensures 0.0 < Progress(current, count).value <= 100.0
    ensures current == count - 1 ==> Progress(current, count).value == 100.0
  {
    var a := (current + 1) as real;
    var c := count as real;
    ScaledPositive(a, c);
    ScaledLess(a, c, c);
    ScaledSelf(c);
  }

  /** A later step gives a larger share. */
  lemma ProgressIncreasing(current: int, later: int, count: nat)
    requires current < later && 0 < count
    ensures Progress(current, count).value < Progress(later, count).value
  {
    ScaledLess((current + 1) as real, (later + 1) as real, count as real);
  }

  lemma ScaledPositive(a: real, c: real)
    requires a > 0.0 && c > 0.0
    ensures a / c * 100.0 > 0.0
  {
  }

  lemma ScaledLess(a: real, b: real, c: real)
    requires a <= b && c > 0.0
    ensures a / c * 100.0 <= b / c * 100.0
    ensures a < b ==> a / c * 100.0 < b / c * 100.0
  {
    assert b / c - a / c == (b - a) / c;
  }

  lemma ScaledSelf(c: real)
    requires c > 0.0
    ensures c / c * 100.0 == 100.0
  {
  }

  lemma ProgressExamples()
    ensures Progress(1, 4) == Some(50.0)
    ensures Progress(3, 4) == Some(100.0)
  {
  }

  // ---------------------------------------------------------------------------
  // _getNumberOfElements and _getActiveStepNumber
  // ---------------------------------------------------------------------------

  /**
   * The test the two counters make: flagged and `width < threshold`, where a
   * threshold of false compares as 0.
   */
  predicate CounterSkips(item: Navigation.NavItem, cfg: Navigation.Config, width: nat) {
    item.skipOnMobile && width < (match cfg.threshold case None => 0 case Some(t) => t)
  }

  /** The counters' test omits the check for false, and agrees with navigation's anyway. */
  lemma CounterSkipsAgrees(item: Navigation.NavItem, cfg: Navigation.Config, width: nat)
    ensures CounterSkips(item, cfg, width) <==> Navigation.Skipped(item, cfg, width)
  {
  }

  /** The number of bypassed items in a list. */
  function SkippedCount(items: seq<Navigation.NavItem>, cfg: Navigation.Config, width: nat): (n: nat)
    ensures n <= |items|
  {
    if |items| == 0 then 0
    else SkippedCount(items[..|items| - 1], cfg, width) + (if CounterSkips(items[|items| - 1], cfg, width) then 1 else 0)
  }

  lemma {:induction false} SkippedCountAppend(a: seq<Navigation.NavItem>, b: seq<Navigation.NavItem>,
                                              cfg: Navigation.Config, width: nat)
    ensures SkippedCount(a + b, cfg, width) == SkippedCount(a, cfg, width) + SkippedCount(b, cfg, width)
    decreases |b|
  {
    if |b| == 0 {
      assert a + b == a;
    } else {
      assert (a + b)[..|a + b| - 1] == a + b[..|b| - 1];
      SkippedCountAppend(a, b[..|b| - 1], cfg, width);
    }
  }

  /** _getNumberOfElements: the item count less one per bypassed item. */
  method NumberOfElements(items: seq<Navigation.NavItem>, cfg: Navigation.Config, width: nat) returns (counter: int)
    ensures counter == |items| - SkippedCount(items, cfg, width)
    ensures 0 <= counter <= |items|
  {
    counter := |items|;
    var i := 0;
    while i < |items|
      invariant 0 <= i <= |items|
      invariant counter == |items| - SkippedCount(items[..i], cfg, width)
    {
      assert items[..i + 1][..i] == items[..i];
      if items[i].skipOnMobile && width < (match cfg.threshold case None => 0 case Some(t) => t) {
        counter := counter - 1;
      }
      i := i + 1;
    }
    assert items[..i] == items;
  }

  /** Items that are shown: the count _getNumberOfElements computes. */
  function ShownCount(items: seq<Navigation.NavItem>, cfg: Navigation.Config, width: nat): nat {
    |items| - SkippedCount(items, cfg, width)
  }

  /**
   * _getActiveStepNumber as written: the loop runs while i < stepNumber - 1,
   * and stepNumber shrinks for every bypassed item, so the bound shrinks with
   * it; an index past the list throws (None).
   */
  function ActiveStepNumberAsWritten(items: seq<Navigation.NavItem>, i: nat, stepNumber: int,
                                     cfg: Navigation.Config, width: nat): (r: Option<int>)
    ensures r.Some? ==> r.value <= stepNumber
    decreases |items| - i
  {
    if !(i < stepNumber - 1) then Some(stepNumber)
    else if i >= |items| then None
    else
      ActiveStepNumberAsWritten(items, i + 1,
        if CounterSkips(items[i], cfg, width) then stepNumber - 1 else stepNumber, cfg, width)
  }

  /**
   * The label _showElement writes for the shown item at `index` as written:
   * the counter is called with the item's step number, not with index + 1.
   */
  function ActiveLabelAsWritten(items: seq<Navigation.NavItem>, index: nat,
                                cfg: Navigation.Config, width: nat): Option<int>
    requires index < |items|
  {
    ActiveStepNumberAsWritten(items, 0, items[index].step, cfg, width)
  }

  /** Five items of which the first four are bypassed: the last one is labelled 3 of 1. */
  lemma ShrinkingBoundOvercounts()
    ensures var flagged := Navigation.NavItem(0, true, "bottom");
      var items := [flagged, flagged, flagged, flagged, Navigation.NavItem(0, false, "bottom")];
      var cfg := Navigation.Config([], Some(500));
      ActiveStepNumberAsWritten(items, 0, 5, cfg, 320) == Some(3) && ShownCount(items, cfg, 320) == 1
  {
    var flagged := Navigation.NavItem(0, true, "bottom");
    var items := [flagged, flagged, flagged, flagged, Navigation.NavItem(0, false, "bottom")];
    var cfg := Navigation.Config([], Some(500));
    assert ActiveStepNumberAsWritten(items, 2, 3, cfg, 320) == Some(3);
    assert ActiveStepNumberAsWritten(items, 1, 4, cfg, 320) == Some(3);
    assert ActiveStepNumberAsWritten(items, 0, 5, cfg, 320) == Some(3);
    AllSkipped(items[..4], cfg, 320);
    assert items[..5] == items;
  }

  /**
   * Two declarative items numbered 1 and 5: showing the second calls the
   * counter with 5, which reads a third item that does not exist and throws.
   */
  lemma GappedStepNumberFaults()
    ensures var items := [Navigation.NavItem(1, false, "bottom"), Navigation.NavItem(5, false, "bottom")];
      ActiveLabelAsWritten(items, 1, Navigation.Config([], None), 1024) == None
  {
    var items := [Navigation.NavItem(1, false, "bottom"), Navigation.NavItem(5, false, "bottom")];
    assert ActiveStepNumberAsWritten(items, 2, 5, Navigation.Config([], None), 1024) == None;
  }

  /**
   * The counter for the item at `index`, as evidently intended: its position
   * among the items that are shown, counting the bypassed items before it
   * and never reading past the list.
   */
  function ActiveStepNumber(items: seq<Navigation.NavItem>, index: nat, cfg: Navigation.Config, width: nat): (n: int)
    requires index < |items|
    ensures 1 <= n <= index + 1
  {
    index + 1 - SkippedCount(items[..index], cfg, width)
  }

  /** A shown item's counter never exceeds the total, and the last shown item's equals it. */
  lemma ActiveWithinTotal(items: seq<Navigation.NavItem>, index: nat, cfg: Navigation.Config, width: nat)
    requires index < |items| && !CounterSkips(items[index], cfg, width)
    ensures ActiveStepNumber(items, index, cfg, width) <= ShownCount(items, cfg, width)
    ensures (forall k :: index < k < |items| ==> CounterSkips(items[k], cfg, width)) ==>
      ActiveStepNumber(items, index, cfg, width) == ShownCount(items, cfg, width)
  {
    var head := items[..index + 1];
    var tail := items[index + 1..];
    assert items == head + tail;
    SkippedCountAppend(head, tail, cfg, width);
    assert head[..index] == items[..index];
    if forall k :: index < k < |items| ==> CounterSkips(items[k], cfg, width) {
      AllSkipped(tail, cfg, width);
    }
  }

  lemma {:induction false} AllSkipped(items: seq<Navigation.NavItem>, cfg: Navigation.Config, width: nat)
    requires forall k :: 0 <= k < |items| ==> CounterSkips(items[k], cfg, width)
    ensures SkippedCount(items, cfg, width) == |items|
  {
    if |items| > 0 {
      AllSkipped(items[..|items| - 1], cfg, width);
    }
  }

  /**
   * The next shown item after a shown one gets the next counter value: the
   * counters of the shown items run 1, 2, 3, ... in the order navigation
   * visits them.
   */
  lemma ActiveCountsUp(items: seq<Navigation.NavItem>, index: nat, cfg: Navigation.Config, width: nat)
    requires index < |items| && !Navigation.Skipped(items[index], cfg, width)
    requires Navigation.SkipForward(items, index + 1, cfg, width) < |items|
    ensures var j := Navigation.SkipForward(items, index + 1, cfg, width);
      ActiveStepNumber(items, j, cfg, width) == ActiveStepNumber(items, index, cfg, width) + 1
  {
    var j := Navigation.SkipForward(items, index + 1, cfg, width);
    var between := items[index + 1..j];
    assert items[..j] == items[..index] + [items[index]] + between;
    SkippedCountAppend(items[..index] + [items[index]], between, cfg, width);
    SkippedCountAppend(items[..index], [items[index]], cfg, width);
    assert [items[index]][..0] == [];
    forall k | 0 <= k < |between| ensures CounterSkips(between[k], cfg, width) {
      assert between[k] == items[index + 1 + k];
    }
    AllSkipped(between, cfg, width);
  }

  /** With nothing bypassed, both versions give index + 1 when the step number is index + 1. */
  lemma {:induction false} AsWrittenAgreesWithoutSkipping(items: seq<Navigation.NavItem>, i: nat, stepNumber: int,
                                                          cfg: Navigation.Config, width: nat)
    requires forall k :: 0 <= k < |items| ==> !CounterSkips(items[k], cfg, width)
    requires i <= stepNumber && stepNumber <= |items| + 1
    ensures ActiveStepNumberAsWritten(items, i, stepNumber, cfg, width) == Some(stepNumber)
    decreases |items| - i
  {
    if i < stepNumber - 1 {
      AsWrittenAgreesWithoutSkipping(items, i + 1, stepNumber, cfg, width);
    }
  }

  // ---------------------------------------------------------------------------
  // Button states in _showElement
  // ---------------------------------------------------------------------------

  /** Which of the four branches the button row takes. */
  datatype Phase = First | Last | Only | Middle

  /** The branch for index `current` of `count` items, in the order the source checks them. */
  function PhaseOf(current: int, count: nat): (p: Phase)
    ensures p == First <==> current == 0 && count > 1
    ensures p == Last <==> current == count - 1 && count > 1
    ensures p == Only <==> count == 1
    ensures p == Middle <==> count != 1 && (count <= 1 || (current != 0 && current != count - 1))
  {
    if current == 0 && count > 1 then First
    else if count - 1 == current && count > 1 then Last
    else if count == 1 then Only
    else Middle
  }

  /** The role part of a button's class. */
  datatype Role = PrevButton | OnlyPrevButton | NextButton | OnlyNextButton

  /** A button's class: its role and whether it is hidden; `tabOut` when its tab index is set to -1. */
  datatype Button = Button(role: Role, hidden: bool, tabOut: bool)

  datatype ButtonRow = ButtonRow(prev: Button, next: Button, skipLabel: string)

  /** The class attribute a button receives. */
  function ClassName(b: Button): string {
    "introjs-button introjs-" +
    (match b.role
     case PrevButton => "prevbutton"
     case OnlyPrevButton => "only-prevbutton"
     case NextButton => "nextbutton"
     case OnlyNextButton => "only-nextbutton") +
    (if b.hidden then " introjs-hidden" else "")
  }

  /**
   * The button row of _showElement (intro.js:1315-1371) for index `current`
   * of `count` items; the skip button shows the item's skip label in every branch.
   */
  function Buttons(current: int, count: nat, checkpoints: seq<int>, skipLabel: string): (r: ButtonRow)
    ensures r.skipLabel == skipLabel
    ensures r.next.hidden <==> PhaseOf(current, count) in {Last, Only}
    ensures r.prev.hidden <==> PhaseOf(current, count) in {First, Only} || current in checkpoints
    ensures r.prev.tabOut <==> PhaseOf(current, count) in {First, Only}
    ensures r.next.tabOut <==> r.next.hidden
  {
    var atCheckpoint := current in checkpoints;
    match PhaseOf(current, count)
    case First => ButtonRow(Button(PrevButton, true, true), Button(OnlyNextButton, false, false), skipLabel)
    case Last => ButtonRow(Button(OnlyPrevButton, atCheckpoint, false), Button(NextButton, true, true), skipLabel)
    case Only => ButtonRow(Button(PrevButton, true, true), Button(NextButton, true, true), skipLabel)
    case Middle =>
      ButtonRow(Button(PrevButton, atCheckpoint, false),
                Button(if atCheckpoint then OnlyNextButton else NextButton, false, false), skipLabel)
  }

  /**
   * On a shown step the previous button is hidden exactly when previous()
   * would refuse to move, and the next button exactly on the last step.
   */
  lemma ButtonsMatchNavigation(tour: Navigation.Tour, cfg: Navigation.Config, width: nat, skipLabel: string)
    requires tour.cursor.At? && 0 <= tour.cursor.i < |tour.items|
    ensures var r := Buttons(tour.cursor.i, |tour.items|, cfg.checkpoints, skipLabel);
      var back := Navigation.PreviousStep(tour, cfg, width);
      (r.prev.hidden <==> back.status == Navigation.Refused && back.tour.cursor == tour.cursor) &&
      (r.next.hidden <==> tour.cursor.i == |tour.items| - 1)
  {
  }

  /** At a checkpoint in the middle the previous button is hidden but keeps its place in the tab order. */
  lemma HiddenPrevKeepsTabStop()
    ensures var r := Buttons(1, 3, [1], "Skip");
      r.prev.hidden && !r.prev.tabOut && ClassName(r.prev) == "introjs-button introjs-prevbutton introjs-hidden"
  {
  }

  // ---------------------------------------------------------------------------
  // _renderIntroText
  // ---------------------------------------------------------------------------

  /** options.activeRoles before `[].concat`: null, one role, or a list of roles. */
  datatype ActiveRoles = NoRoles | OneRole(role: string) | RoleList(roles: seq<string>)

  /** `[].concat(activeRoles)`, with every falsy entry (null, undefined, "") written as "". */
  function RolesOf(active: ActiveRoles): (r: seq<string>)
    ensures |r| >= 1 || active.RoleList?
  {
    match active
    case NoRoles => [""]
    case OneRole(s) => [s]
    case RoleList(l) => l
  }

  /** The text an intro holds for a role; a plain string holds none. */
  function RoleText(intro: Collector.Intro, role: string): string {
    match intro
    case Text(_) => ""
    case ByRole(m) => if role in m then m[role] else ""
  }

  /** The fallback text: the "default" entry, or the intro itself when it is a plain string. */
  function DefaultText(intro: Collector.Intro): string {
    match intro
    case Text(s) => s
    case ByRole(m) => if "default" in m then m["default"] else ""
  }

  /** The roles before the first falsy one: the roles the source's loop visits. */
  function LeadingRoles(roles: seq<string>): (r: seq<string>)
    ensures r <= roles
    ensures forall k :: 0 <= k < |r| ==> r[k] != ""
    ensures |r| < |roles| ==> roles[|r|] == ""
  {
    if |roles| == 0 || roles[0] == "" then [] else [roles[0]] + LeadingRoles(roles[1..])
  }

  /** The texts of the visited roles that have one, in role order. */
  function Served(intro: Collector.Intro, roles: seq<string>): (r: seq<string>)
    ensures |r| <= |roles|
    ensures forall t :: t in r ==> t != ""
  {
    if |roles| == 0 then []
    else if RoleText(intro, roles[0]) != "" then [RoleText(intro, roles[0])] + Served(intro, roles[1..])
    else Served(intro, roles[1..])
  }

  /**
   * Served distributes over concatenation of role lists; with ServedOne this
   * says the served texts are the non-empty role texts, in role order.
   */
  lemma {:induction false} ServedAppend(intro: Collector.Intro, a: seq<string>, b: seq<string>)
    ensures Served(intro, a + b) == Served(intro, a) + Served(intro, b)
    decreases |a|
  {
    if |a| == 0 {
      assert a + b == b;
    } else {
      assert (a + b)[0] == a[0];
      assert (a + b)[1..] == a[1..] + b;
      ServedAppend(intro, a[1..], b);
    }
  }

  /** One role gives its own text when it has one, and nothing otherwise. */
  lemma ServedOne(intro: Collector.Intro, role: string)
    ensures Served(intro, [role]) == if RoleText(intro, role) != "" then [RoleText(intro, role)] else []
  {
    assert [role][1..] == [];
  }

  /** A text is served exactly when some role has it as its own non-empty text. */
  lemma {:induction false} ServedMembers(intro: Collector.Intro, roles: seq<string>, t: string)
    ensures t in Served(intro, roles) <==> t != "" && exists k :: 0 <= k < |roles| && RoleText(intro, roles[k]) == t
  {
    if |roles| > 0 {
      ServedMembers(intro, roles[1..], t);
      if exists k :: 0 <= k < |roles| && RoleText(intro, roles[k]) == t {
        var k :| 0 <= k < |roles| && RoleText(intro, roles[k]) == t;
        if k > 0 {
          assert roles[1..][k - 1] == roles[k];
        }
      }
      if exists k :: 0 <= k < |roles| - 1 && RoleText(intro, roles[1..][k]) == t {
        var k :| 0 <= k < |roles| - 1 && RoleText(intro, roles[1..][k]) == t;
        assert roles[k + 1] == roles[1..][k];
      }
    }
  }

  const Separator := "<hr class=\"intro-role-text-separator\"/>"

  /** The default template applied to each message and the results joined with newlines. */
  function Join(texts: seq<string>): (r: string)
    ensures |texts| == 1 ==> r == texts[0]
    ensures |texts| > 0 ==> texts[0] <= r
  {
    if |texts| == 0 then ""
    else if |texts| == 1 then texts[0]
    else Join(texts[..|texts| - 1]) + "\n" + Separator + texts[|texts| - 1]
  }

  /** The default template: every message after the first is preceded by the separator. */
  function Templated(texts: seq<string>): (r: seq<string>)
    ensures |r| == |texts|
  {
    seq(|texts|, k requires 0 <= k < |texts| => if k > 0 then Separator + texts[k] else texts[k])
  }

  /** `parts.join(sep)`: the parts with sep between neighbours. */
  function JoinWith(parts: seq<string>, sep: string): string {
    if |parts| == 0 then ""
    else if |parts| == 1 then parts[0]
    else parts[0] + sep + JoinWith(parts[1..], sep)
  }

  lemma {:induction false} JoinWithSnoc(parts: seq<string>, x: string, sep: string)
    requires |parts| > 0
    ensures JoinWith(parts + [x], sep) == JoinWith(parts, sep) + sep + x
    decreases |parts|
  {
    assert (parts + [x])[0] == parts[0];
    if |parts| > 1 {
      assert (parts + [x])[1..] == parts[1..] + [x];
      JoinWithSnoc(parts[1..], x, sep);
    } else {
      assert (parts + [x])[1..] == [x];
    }
  }

  /** Join is the default template mapped over the messages and joined with newlines. */
  lemma {:induction false} JoinIsTemplatedJoin(texts: seq<string>)
    ensures Join(texts) == JoinWith(Templated(texts), "\n")
    decreases |texts|
  {
    if |texts| > 1 {
      var init := texts[..|texts| - 1];
      var last := texts[|texts| - 1];
      JoinIsTemplatedJoin(init);
      assert Templated(texts) == Templated(init) + [Separator + last];
      JoinWithSnoc(Templated(init), Separator + last, "\n");
    }
  }

  datatype RenderError = NoIntroText | NoDefaultText

  /** Every configured role is non-empty and has a text of its own. */
  ghost predicate AllServed(intro: Collector.Intro, roles: seq<string>) {
    forall k :: 0 <= k < |roles| ==> roles[k] != "" && RoleText(intro, roles[k]) != ""
  }

  /**
   * _renderIntroText with the default template: the texts of the active
   * roles that have one, and the default text once more at the end unless
   * every role was served. An empty intro is an error, and so is a missing
   * default when one is needed.
   */
  function RenderIntroText(intro: Collector.Intro, active: ActiveRoles): (r: Result<string, RenderError>)
    ensures r == Failure(NoIntroText) <==> intro == Collector.Text("")
    ensures r == Failure(NoDefaultText) <==>
      intro.ByRole? && !AllServed(intro, RolesOf(active)) && DefaultText(intro) == ""
    ensures intro != Collector.Text("") && AllServed(intro, RolesOf(active)) ==>
      r == Success(Join(Served(intro, RolesOf(active))))
    ensures intro != Collector.Text("") && !AllServed(intro, RolesOf(active)) && DefaultText(intro) != "" ==>
      r == Success(Join(Served(intro, LeadingRoles(RolesOf(active))) + [DefaultText(intro)]))
  {
    if intro == Collector.Text("") then Failure(NoIntroText)
    else
      var roles := RolesOf(active);
      EveryRoleServed(intro, roles);
      assert AllServed(intro, roles) ==> LeadingRoles(roles) == roles;
      var msgs := Served(intro, LeadingRoles(roles));
      if |msgs| != |roles| then
        if DefaultText(intro) != "" then Success(Join(msgs + [DefaultText(intro)]))
        else Failure(NoDefaultText)
      else Success(Join(msgs))
  }

  /** With no roles configured the default text is shown alone; a plain-string intro always renders itself. */
  lemma NoRolesShowDefault(intro: Collector.Intro)
    requires DefaultText(intro) != ""
    ensures RenderIntroText(intro, NoRoles) == Success(DefaultText(intro))
  {
    assert LeadingRoles([""]) == [];
  }

  /** The default is left out exactly when every configured role is non-empty and has its own text. */
  lemma {:induction false} EveryRoleServed(intro: Collector.Intro, roles: seq<string>)
    ensures |Served(intro, LeadingRoles(roles))| == |roles| <==> AllServed(intro, roles)
  {
    if |roles| > 0 {
      EveryRoleServed(intro, roles[1..]);
      if roles[0] != "" {
        assert LeadingRoles(roles) == [roles[0]] + LeadingRoles(roles[1..]);
      }
      ServedAtMostRoles(intro, LeadingRoles(roles[1..]), roles[1..]);
      forall k | 1 <= k < |roles| ensures roles[k] == roles[1..][k - 1] {}
    }
  }

  lemma ServedAtMostRoles(intro: Collector.Intro, leading: seq<string>, roles: seq<string>)
    requires leading <= roles
    ensures |Served(intro, leading)| <= |roles|
  {
  }

  /** Two roles, one with its own text: that text, then the separator and the default. */
  lemma RoleExample()
    ensures var intro := Collector.ByRole(map["admin" := "A", "default" := "D"]);
      RenderIntroText(intro, RoleList(["admin", "guest"])) == Success("A\n" + Separator + "D") &&
      RenderIntroText(intro, OneRole("admin")) == Success("A")
  {
    var intro := Collector.ByRole(map["admin" := "A", "default" := "D"]);
    assert LeadingRoles(["admin", "guest"]) == ["admin", "guest"];
    assert Served(intro, ["guest"]) == [];
    assert Served(intro, ["admin", "guest"]) == ["A"];
    assert ["A"] + [DefaultText(intro)] == ["A", "D"];
    assert ["A", "D"][..1] == ["A"];
    assert "A" + "\n" == "A\n";
    assert Join(["A", "D"]) == "A\n" + Separator + "D";
    assert RenderIntroText(intro, RoleList(["admin", "guest"])) == Success(Join(["A", "D"]));
    assert LeadingRoles(["admin"]) == ["admin"];
    assert Served(intro, ["admin"]) == ["A"];
  }

  /** An empty role list needs no default and renders the empty text, whatever the intro holds. */
  lemma EmptyRoleListRendersNothing(intro: Collector.Intro)
    requires intro != Collector.Text("")
    ensures RenderIntroText(intro, RoleList([])) == Success("")
  {
  }
}
