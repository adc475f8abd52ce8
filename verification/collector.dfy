/**
 * The step collector of a guided tour: how the tour's items are discovered,
 * numbered, deduplicated, ordered and given their display metadata, either from
 * `data-intro-*` annotations found in the page (declarative mode) or from a list
 * of step descriptors passed in the options (programmatic mode).
 *
 * The page is not modelled: a declarative scan arrives as the sequence of
 * annotated elements in document order, and a programmatic descriptor arrives
 * with its element already resolved (or missing).
 */
module Collector {
  import opened Common

  // ---------------------------------------------------------------------------
  // parseInt(s, 10)
  // ---------------------------------------------------------------------------

  predicate IsDigit(c: char) {
    '0' <= c <= '9'
  }

  /** The white space that parseInt skips before the number. */
  predicate IsJsSpace(c: char) {
    c == ' ' || c == '\t' || c == '\n' || c == '\r' || c == '\U{000B}' || c == '\U{000C}'
    || c == '\U{00A0}' || c == '\U{2028}' || c == '\U{2029}' || c == '\U{FEFF}'
  }

  function TrimStart(s: string): (r: string)
    ensures |r| <= |s| && r == s[|s| - |r|..]
    ensures |r| > 0 ==> !IsJsSpace(r[0])
  {
    if |s| > 0 && IsJsSpace(s[0]) then TrimStart(s[1..]) else s
  }

  /** Length of the run of decimal digits that starts `s`. */
  function DigitRun(s: string): (n: nat)
    ensures n <= |s|
    ensures forall i :: 0 <= i < n ==> IsDigit(s[i])
    ensures n < |s| ==> !IsDigit(s[n])
  {
    if |s| > 0 && IsDigit(s[0]) then 1 + DigitRun(s[1..]) else 0
  }

  function DigitValue(c: char): nat
    requires IsDigit(c)
  {
    (c as int) - ('0' as int)
  }

  /** The number a string of decimal digits denotes. */
  function DigitsValue(ds: string): nat
    requires forall i :: 0 <= i < |ds| ==> IsDigit(ds[i])
  {
    if |ds| == 0 then 0 else 10 * DigitsValue(ds[..|ds| - 1]) + DigitValue(ds[|ds| - 1])
  }

  /**
   * JavaScript's parseInt(s, 10): leading white space is skipped, an optional
   * sign is read, then the longest run of decimal digits; anything after it is
   * ignored. None stands for NaN (no digit where the number should start).
   */
  function ParseInt(s: string): Option<int> {
    var t := TrimStart(s);
    var negative := |t| > 0 && t[0] == '-';
    var body := if |t| > 0 && (t[0] == '-' || t[0] == '+') then t[1..] else t;
    var n := DigitRun(body);
    if n == 0 then None
    else
      var magnitude: int := DigitsValue(body[..n]);
      Some(if negative then -magnitude else magnitude)
  }

  function DigitChar(d: nat): (c: char)
    requires d < 10
    ensures IsDigit(c) && DigitValue(c) == d
  {
    (('0' as int) + d) as char
  }

  /** The decimal notation of a natural number, without sign or leading zeros. */
  function Decimal(n: nat): (s: string)
    ensures |s| > 0
    ensures forall i :: 0 <= i < |s| ==> IsDigit(s[i])
  {
    if n < 10 then [DigitChar(n)] else Decimal(n / 10) + [DigitChar(n % 10)]
  }

  lemma {:induction false} DecimalValue(n: nat)
    ensures DigitsValue(Decimal(n)) == n
  {
    if n >= 10 {
      var s := Decimal(n);
      assert s[..|s| - 1] == Decimal(n / 10);
      DecimalValue(n / 10);
    }
  }

  /** parseInt reads back the decimal notation of every natural number. */
  lemma ParseIntDecimal(n: nat)
    ensures ParseInt(Decimal(n)) == Some(n)
  {
    ParseIntDigits(Decimal(n));
    DecimalValue(n);
  }

  lemma ParseIntDigits(s: string)
    requires |s| > 0
    requires forall i :: 0 <= i < |s| ==> IsDigit(s[i])
    ensures ParseInt(s) == Some(DigitsValue(s) as int)
  {
    assert IsDigit(s[0]);
    assert !IsJsSpace(s[0]) && s[0] != '-' && s[0] != '+';
    assert TrimStart(s) == s;
    AllDigitsRun(s);
    assert s[..|s|] == s;
  }

  lemma AllDigitsRun(s: string)
    requires forall i :: 0 <= i < |s| ==> IsDigit(s[i])
    ensures DigitRun(s) == |s|
  {
  }

  /** A minus sign in front of the notation gives the negative number. */
  lemma ParseIntNegative(n: nat)
    ensures ParseInt("-" + Decimal(n)) == Some(-(n as int))
  {
    var s := Decimal(n);
    var t := "-" + s;
    assert t[0] == '-' && !IsJsSpace(t[0]);
    assert TrimStart(t) == t;
    assert t[1..] == s;
    AllDigitsRun(s);
    assert DigitRun(s) == |s| && |s| > 0;
    assert s[..|s|] == s;
    DecimalValue(n);
    assert DigitsValue(s) == n;
  }

  // ---------------------------------------------------------------------------
  // Elements, descriptors and items
  // ---------------------------------------------------------------------------

  /**
   * The `data-intro-*` attributes of one element (None: attribute absent).
   * `nextLabel` is read from the attribute the code spells `data-intro-nextlebel`.
   */
  datatype Attributes = Attributes(
    step: Option<string>,
    key: Option<string>,
    text: Option<string>,
    tooltipClass: Option<string>,
    highlightClass: Option<string>,
    position: Option<string>,
    prevLabel: Option<string>,
    nextLabel: Option<string>,
    skipLabel: Option<string>)

  const NoAttributes := Attributes(None, None, None, None, None, None, None, None, None)

  /** A page element: its identity, whether its computed display is not 'none', its annotations. */
  datatype Element = Element(id: nat, displayed: bool, attrs: Attributes)

  /** What a step highlights: a page element, or the shared floating placeholder. */
  datatype Target = Floating | Node(element: Element)

  /** Intro text: plain, or keyed by user role. */
  datatype Intro = Text(s: string) | ByRole(texts: map<string, string>)

  /** Properties a programmatic descriptor sets itself; they win over the derived ones. */
  datatype Overrides = Overrides(
    intro: Option<Intro>,
    tooltipClass: Option<string>,
    highlightClass: Option<string>,
    position: Option<string>,
    prevLabel: Option<string>,
    nextLabel: Option<string>,
    skipLabel: Option<string>)

  const NoOverrides := Overrides(None, None, None, None, None, None, None)

  /** One entry of the `steps` option, with its element resolved (None: no such element). */
  datatype Descriptor = Descriptor(element: Option<Element>, own: Overrides, skipOnMobile: bool)

  /** An item before its metadata is derived. */
  datatype Placed = Placed(step: int, target: Target, own: Overrides, skipOnMobile: bool)

  /** A collected tour item. */
  datatype Item = Item(
    step: int,
    target: Target,
    intro: Intro,
    tooltipClass: Option<string>,
    highlightClass: Option<string>,
    position: string,
    prevLabel: string,
    nextLabel: string,
    skipLabel: string,
    skipOnMobile: bool)

  /** The tour options the collector reads. */
  datatype Options = Options(
    nextLabel: string,
    prevLabel: string,
    skipLabel: string,
    doneLabel: string,
    tooltipPosition: string)

  /**
   * Where the steps come from. A programmatic source carries the
   * `skipMissingElements` policy, asked with the descriptor's index when its
   * element is missing (a boolean option is a constant policy).
   */
  datatype Source =
    | Declarative(scan: seq<Element>)
    | Programmatic(steps: seq<Descriptor>, skipMissing: (nat, Descriptor) -> bool)

  datatype CollectError = NoStepsFound

  function AttrsOf(t: Target): Attributes {
    match t
    case Floating => NoAttributes
    case Node(e) => e.attrs
  }

  predicate Displayed(t: Target) {
    match t
    case Floating => true
    case Node(e) => e.displayed
  }

  /** JavaScript `attr || fallback` on an attribute: absent and empty both fall back. */
  function OrElse(attr: Option<string>, fallback: string): (r: string)
    ensures attr.Some? && attr.value != "" ==> r == attr.value
    ensures attr.None? || attr.value == "" ==> r == fallback
  {
    if attr.Some? && attr.value != "" then attr.value else fallback
  }

  // ---------------------------------------------------------------------------
  // _getIntroText and _mergeOptions
  // ---------------------------------------------------------------------------

  /**
   * The intro text of an element: the text dictionary's entry for its
   * non-empty key when the dictionary has one, else its inline text, else empty.
   */
  function GetIntroText(attrs: Attributes, textData: map<string, Intro>): (r: Intro)
    ensures attrs.key.Some? && attrs.key.value != "" && attrs.key.value in textData ==>
              r == textData[attrs.key.value]
    ensures !(attrs.key.Some? && attrs.key.value != "" && attrs.key.value in textData) ==>
              r == Text(attrs.text.GetOr(""))
  {
    if attrs.key.Some? && attrs.key.value != "" && attrs.key.value in textData
    then textData[attrs.key.value]
    else Text(attrs.text.GetOr(""))
  }

  /** Right-biased merge of two property bags: every key of either, the second's value winning. */
  function MergeOptions<K, V>(first: map<K, V>, second: map<K, V>): (r: map<K, V>)
    ensures r.Keys == first.Keys + second.Keys
    ensures forall k :: k in second ==> r[k] == second[k]
    ensures forall k :: k in first && k !in second ==> r[k] == first[k]
  {
    first + second
  }

  /** Merging an empty bag on either side changes nothing; merging is idempotent. */
  lemma MergeOptionsNeutral<K, V>(m: map<K, V>)
    ensures MergeOptions(m, map[]) == m
    ensures MergeOptions(map[], m) == m
    ensures MergeOptions(m, m) == m
  {
    assert MergeOptions(m, map[]).Keys == m.Keys;
    assert MergeOptions(map[], m).Keys == m.Keys;
  }

  // ---------------------------------------------------------------------------
  // Deduplication by data-intro-key
  // ---------------------------------------------------------------------------

  /**
   * isKeyDuplicate: whether the element's key was already claimed, and the
   * claimed keys afterwards. An absent or empty key is never a duplicate and is
   * never claimed.
   */
  function KeyCheck(key: Option<string>, used: seq<string>): (r: (bool, seq<string>))
    ensures r.0 <==> key.Some? && key.value in used
    ensures !r.0 && key.Some? && key.value != "" ==> r.1 == used + [key.value]
    ensures r.0 || key.None? || key.value == "" ==> r.1 == used
  {
    var noDup := key.None? || key.value !in used;
    if noDup && key.Some? && key.value != "" then (false, used + [key.value]) else (!noDup, used)
  }

  // ---------------------------------------------------------------------------
  // Declarative collection: two passes over a slot array with holes
  // ---------------------------------------------------------------------------

  /** The item array while it is filled: index i holds the item numbered i + 1, or a hole. */
  type Slots = seq<Option<Placed>>

  /** `slots[i] = p` on a JavaScript array: writing past the end leaves holes. */
  function Put(slots: Slots, i: nat, p: Placed): (r: Slots)
    ensures |r| == if i < |slots| then |slots| else i + 1
    ensures r[i] == Some(p)
    ensures forall j :: 0 <= j < |slots| && j != i ==> r[j] == slots[j]
    ensures forall j :: |slots| <= j < |r| && j != i ==> r[j].None?
  {
    if i < |slots| then slots[i := Some(p)] else slots + seq(i - |slots|, _ => None) + [Some(p)]
  }

  /** The step number an element asks for (parseInt of its step attribute; parseInt(null) is NaN). */
  function StepNumber(e: Element): Option<int> {
    match e.attrs.step
    case None => None
    case Some(s) => ParseInt(s)
  }

  /** An element whose step attribute parses to a positive number. */
  predicate Numbered(e: Element) {
    StepNumber(e).Some? && StepNumber(e).value > 0
  }

  /** First pass: each numbered element with an unclaimed key goes to index number - 1. */
  function NumberedPass(scan: seq<Element>, slots: Slots, used: seq<string>): (Slots, seq<string>)
    decreases |scan|
  {
    if |scan| == 0 then (slots, used)
    else
      var e := scan[0];
      if Numbered(e) then
        var (dup, used') := KeyCheck(e.attrs.key, used);
        var n := StepNumber(e).value;
        NumberedPass(scan[1..], if dup then slots else Put(slots, n - 1, Placed(n, Node(e), NoOverrides, false)), used')
      else NumberedPass(scan[1..], slots, used)
  }

  /** The first hole (or the end) at or after index k. */
  function FirstFree(slots: Slots, k: nat): (r: nat)
    ensures k <= r
    ensures r <= |slots| || r == k
    ensures r >= |slots| || slots[r].None?
    ensures forall j :: k <= j < r ==> slots[j].Some?
    decreases |slots| - k
  {
    if k >= |slots| || slots[k].None? then k else FirstFree(slots, k + 1)
  }

  /**
   * Second pass: each element without a step attribute and with an unclaimed
   * key goes to the first hole; the search resumes where the last one stopped.
   */
  function UnnumberedPass(scan: seq<Element>, slots: Slots, used: seq<string>, next: nat): Slots
    decreases |scan|
  {
    if |scan| == 0 then slots
    else
      var e := scan[0];
      if e.attrs.step.None? then
        var (dup, used') := KeyCheck(e.attrs.key, used);
        if dup then UnnumberedPass(scan[1..], slots, used', next)
        else
          var at := FirstFree(slots, next);
          UnnumberedPass(scan[1..], Put(slots, at, Placed(at + 1, Node(e), NoOverrides, false)), used', at)
      else UnnumberedPass(scan[1..], slots, used, next)
  }

  /** Copies the filled slots, in index order, dropping the holes. */
  function Compact(slots: Slots): (r: seq<Placed>)
    ensures |r| <= |slots|
    ensures forall x :: x in r <==> Some(x) in slots
  {
    if |slots| == 0 then []
    else (if slots[0].Some? then [slots[0].value] else []) + Compact(slots[1..])
  }

  /**
   * Compaction distributes over concatenation and a single slot gives its
   * item or nothing: the result is the filled slots, each once, in index order.
   */
  lemma {:induction false} CompactAppend(a: Slots, b: Slots)
    ensures Compact(a + b) == Compact(a) + Compact(b)
    ensures Compact([None]) == []
    ensures forall p :: Compact([Some(p)]) == [p]
    decreases |a|
  {
    if |a| == 0 {
      assert a + b == b;
    } else {
      assert (a + b)[0] == a[0];
      assert (a + b)[1..] == a[1..] + b;
      CompactAppend(a[1..], b);
    }
  }

  // ---------------------------------------------------------------------------
  // Sorting by step
  // ---------------------------------------------------------------------------

  ghost predicate SortedByStep(ps: seq<Placed>) {
    forall i, j :: 0 <= i < j < |ps| ==> ps[i].step <= ps[j].step
  }

  ghost predicate StrictlyIncreasing(ps: seq<Placed>) {
    forall i, j :: 0 <= i < j < |ps| ==> ps[i].step < ps[j].step
  }

  /** Inserts p into a list after the leading entries whose step is not larger. */
  function Insert(p: Placed, ps: seq<Placed>): (r: seq<Placed>)
    ensures multiset(r) == multiset(ps) + multiset{p}
    ensures |r| == |ps| + 1
    ensures forall x :: x in r ==> x == p || x in ps
  {
    if |ps| == 0 then [p]
    else if p.step < ps[0].step then [p] + ps
    else
      assert ps == [ps[0]] + ps[1..];
      [ps[0]] + Insert(p, ps[1..])
  }

  /** Inserting into a sorted list keeps it sorted. */
  lemma {:induction false} InsertSorted(p: Placed, ps: seq<Placed>)
    requires SortedByStep(ps)
    ensures SortedByStep(Insert(p, ps))
  {
    if |ps| > 0 && p.step >= ps[0].step {
      var tail := ps[1..];
      assert SortedByStep(tail) by {
        forall i, j | 0 <= i < j < |tail| ensures tail[i].step <= tail[j].step {
          assert tail[i] == ps[i + 1] && tail[j] == ps[j + 1];
        }
      }
      var rest := Insert(p, tail);
      assert SortedByStep(rest) by {
        InsertSorted(p, tail);
      }
      forall j | 0 <= j < |rest|
        ensures ps[0].step <= rest[j].step
      {
        assert rest[j] in rest;
        if rest[j] != p {
          var k :| 0 <= k < |tail| && tail[k] == rest[j];
          assert ps[k + 1] == rest[j];
        }
      }
      var r := [ps[0]] + rest;
      assert Insert(p, ps) == r;
      forall i, j | 0 <= i < j < |r| ensures r[i].step <= r[j].step {
        if i > 0 {
          assert r[i] == rest[i - 1] && r[j] == rest[j - 1];
        } else {
          assert r[j] == rest[j - 1];
        }
      }
    }
  }

  /** `items.sort((a, b) => a.step - b.step)`, as a stable insertion sort. */
  function SortByStep(ps: seq<Placed>): (r: seq<Placed>)
    ensures SortedByStep(r)
    ensures multiset(r) == multiset(ps)
    ensures |r| == |ps|
  {
    if |ps| == 0 then []
    else
      assert ps == ps[..|ps| - 1] + [ps[|ps| - 1]];
      var sorted := SortByStep(ps[..|ps| - 1]);
      InsertSorted(ps[|ps| - 1], sorted);
      Insert(ps[|ps| - 1], sorted)
  }

  lemma {:induction false} InsertAtEnd(p: Placed, ps: seq<Placed>)
    requires SortedByStep(ps)
    requires forall i :: 0 <= i < |ps| ==> ps[i].step < p.step
    ensures Insert(p, ps) == ps + [p]
  {
    if |ps| > 0 {
      InsertAtEnd(p, ps[1..]);
      assert ps == [ps[0]] + ps[1..];
    }
  }

  /** Sorting a list whose steps already strictly increase returns it unchanged. */
  lemma {:induction false} SortKeepsIncreasing(ps: seq<Placed>)
    requires StrictlyIncreasing(ps)
    ensures SortByStep(ps) == ps
  {
    if |ps| > 0 {
      var init := ps[..|ps| - 1];
      SortKeepsIncreasing(init);
      InsertAtEnd(ps[|ps| - 1], init);
      assert init + [ps[|ps| - 1]] == ps;
    }
  }

  // ---------------------------------------------------------------------------
  // Programmatic collection
  // ---------------------------------------------------------------------------

  /**
   * The descriptors from index i on. Each gets the step number count + 1 where
   * count is the number of items kept so far. A descriptor without an element
   * is dropped when the policy says skip, else it gets the floating placeholder
   * and position 'floating'. Only displayed targets are kept.
   */
  function ProgrammaticPass(steps: seq<Descriptor>, i: nat, acc: seq<Placed>,
                            skipMissing: (nat, Descriptor) -> bool): seq<Placed>
    requires i <= |steps|
    decreases |steps| - i
  {
    if i == |steps| then acc
    else
      var d := steps[i];
      var floated := d.element.None? && !skipMissing(i, d);
      var kept := if d.element.Some? then d.element.value.displayed else floated;
      var target := if d.element.Some? then Node(d.element.value) else Floating;
      var own := if floated then d.own.(position := Some("floating")) else d.own;
      ProgrammaticPass(steps, i + 1,
        if kept then acc + [Placed(|acc| + 1, target, own, d.skipOnMobile)] else acc, skipMissing)
  }

  // ---------------------------------------------------------------------------
  // Metadata and the collector itself
  // ---------------------------------------------------------------------------

  /** Derives the metadata of the item at index i of n, then lets the item's own properties win. */
  function Derive(p: Placed, i: nat, n: nat, opts: Options, textData: map<string, Intro>): Item {
    var a := AttrsOf(p.target);
    var skipDefault := if i + 1 < n then opts.skipLabel else opts.doneLabel;
    Item(
      p.step,
      p.target,
      p.own.intro.GetOr(GetIntroText(a, textData)),
      if p.own.tooltipClass.Some? then p.own.tooltipClass else a.tooltipClass,
      if p.own.highlightClass.Some? then p.own.highlightClass else a.highlightClass,
      p.own.position.GetOr(OrElse(a.position, opts.tooltipPosition)),
      p.own.prevLabel.GetOr(OrElse(a.prevLabel, opts.prevLabel)),
      p.own.nextLabel.GetOr(OrElse(a.nextLabel, opts.nextLabel)),
      p.own.skipLabel.GetOr(OrElse(a.skipLabel, skipDefault)),
      p.skipOnMobile)
  }

  function Augment(ps: seq<Placed>, opts: Options, textData: map<string, Intro>): (r: seq<Item>)
    ensures |r| == |ps|
    ensures forall i :: 0 <= i < |ps| ==> r[i] == Derive(ps[i], i, |ps|, opts, textData)
    ensures forall i :: 0 <= i < |ps| ==>
      r[i].step == ps[i].step && r[i].target == ps[i].target && r[i].skipOnMobile == ps[i].skipOnMobile
  {
    seq(|ps|, i requires 0 <= i < |ps| => Derive(ps[i], i, |ps|, opts, textData))
  }

  /** The slots after both declarative passes. */
  function DeclarativeSlots(scan: seq<Element>): Slots {
    var (slots, used) := NumberedPass(scan, [], []);
    UnnumberedPass(scan, slots, used, 0)
  }

  /** The items before their metadata, in the order the collector leaves them. */
  function Ordered(source: Source): seq<Placed> {
    match source
    case Declarative(scan) => SortByStep(Compact(DeclarativeSlots(scan)))
    case Programmatic(steps, skipMissing) => SortByStep(ProgrammaticPass(steps, 0, [], skipMissing))
  }

  /** The data part of _introForElement: the tour's items, or failure when a scan finds nothing. */
  function Collect(source: Source, opts: Options, textData: map<string, Intro>): Result<seq<Item>, CollectError> {
    if source.Declarative? && |source.scan| == 0 then Failure(NoStepsFound)
    else Success(Augment(Ordered(source), opts, textData))
  }

  // ---------------------------------------------------------------------------
  // Properties of declarative collection
  // ---------------------------------------------------------------------------

  /** The key an item was deduplicated by (the floating placeholder has none). */
  function KeyOf(t: Target): Option<string> {
    AttrsOf(t).key
  }

  /** A key that takes part in deduplication: present and non-empty. */
  predicate Keyed(k: Option<string>) {
    k.Some? && k.value != ""
  }

  /** Filled slot j holds the item numbered base + j + 1. */
  ghost predicate WellNumberedFrom(slots: Slots, base: int) {
    forall j :: 0 <= j < |slots| && slots[j].Some? ==> slots[j].value.step == base + j + 1
  }

  ghost predicate SlotKeysDistinct(slots: Slots) {
    forall i, j ::
      (0 <= i < |slots| && 0 <= j < |slots| && i != j && slots[i].Some? && slots[j].Some?
       && Keyed(KeyOf(slots[i].value.target)))
      ==> KeyOf(slots[i].value.target) != KeyOf(slots[j].value.target)
  }

  ghost predicate SlotKeysClaimed(slots: Slots, used: seq<string>) {
    forall j :: (0 <= j < |slots| && slots[j].Some? && Keyed(KeyOf(slots[j].value.target)))
      ==> KeyOf(slots[j].value.target).value in used
  }

  /**
   * Every filled slot holds a page element placed by one of the two passes:
   * either it has no step attribute, or its step attribute names this slot.
   */
  ghost predicate FromScan(slots: Slots) {
    forall j :: 0 <= j < |slots| && slots[j].Some? ==>
      var p := slots[j].value;
      p.target.Node? && p.own == NoOverrides && !p.skipOnMobile &&
      (p.target.element.attrs.step.None? ||
       (Numbered(p.target.element) && StepNumber(p.target.element).value == j + 1))
  }

  ghost predicate SlotInvariant(slots: Slots, used: seq<string>) {
    WellNumberedFrom(slots, 0) && SlotKeysDistinct(slots) && SlotKeysClaimed(slots, used)
    && "" !in used && FromScan(slots)
  }

  ghost predicate FilledBelow(slots: Slots, next: nat) {
    forall j :: 0 <= j < next ==> j < |slots| && slots[j].Some?
  }

  /** Placing an element whose key is unclaimed keeps the slot invariant. */
  lemma PutKeepsInvariant(slots: Slots, used: seq<string>, i: nat, e: Element, used': seq<string>)
    requires SlotInvariant(slots, used)
    requires !Keyed(e.attrs.key) || e.attrs.key.value !in used
    requires Keyed(e.attrs.key) ==> used' == used + [e.attrs.key.value]
    requires !Keyed(e.attrs.key) ==> used' == used
    requires e.attrs.step.None? || (Numbered(e) && StepNumber(e).value == i + 1)
    ensures SlotInvariant(Put(slots, i, Placed(i + 1, Node(e), NoOverrides, false)), used')
  {
    var r := Put(slots, i, Placed(i + 1, Node(e), NoOverrides, false));
    forall a, b | 0 <= a < |r| && 0 <= b < |r| && a != b && r[a].Some? && r[b].Some?
        && Keyed(KeyOf(r[a].value.target))
      ensures KeyOf(r[a].value.target) != KeyOf(r[b].value.target)
    {
      if a != i && b != i {
        assert r[a] == slots[a] && r[b] == slots[b];
      } else if a == i {
        assert r[b] == slots[b];
        assert !Keyed(KeyOf(slots[b].value.target)) || KeyOf(slots[b].value.target).value in used;
      } else {
        assert r[a] == slots[a];
        assert KeyOf(slots[a].value.target).value in used;
      }
    }
  }

  lemma {:induction false} NumberedPassInvariant(scan: seq<Element>, slots: Slots, used: seq<string>)
    requires SlotInvariant(slots, used)
    ensures SlotInvariant(NumberedPass(scan, slots, used).0, NumberedPass(scan, slots, used).1)
    decreases |scan|
  {
    if |scan| > 0 {
      var e := scan[0];
      if Numbered(e) {
        var (dup, used') := KeyCheck(e.attrs.key, used);
        var n := StepNumber(e).value;
        if dup {
          NumberedPassInvariant(scan[1..], slots, used');
        } else {
          PutKeepsInvariant(slots, used, n - 1, e, used');
          NumberedPassInvariant(scan[1..], Put(slots, n - 1, Placed(n, Node(e), NoOverrides, false)), used');
        }
      } else {
        NumberedPassInvariant(scan[1..], slots, used);
      }
    }
  }

  lemma {:induction false} UnnumberedPassInvariant(scan: seq<Element>, slots: Slots, used: seq<string>, next: nat)
    requires SlotInvariant(slots, used) && FilledBelow(slots, next)
    ensures var r := UnnumberedPass(scan, slots, used, next);
      WellNumberedFrom(r, 0) && SlotKeysDistinct(r) && FromScan(r)
    decreases |scan|
  {
    if |scan| > 0 {
      var e := scan[0];
      if e.attrs.step.None? {
        var (dup, used') := KeyCheck(e.attrs.key, used);
        if dup {
          UnnumberedPassInvariant(scan[1..], slots, used', next);
        } else {
          var at := FirstFree(slots, next);
          var slots' := Put(slots, at, Placed(at + 1, Node(e), NoOverrides, false));
          PutKeepsInvariant(slots, used, at, e, used');
          FilledAfterPut(slots, next, Placed(at + 1, Node(e), NoOverrides, false));
          UnnumberedPassInvariant(scan[1..], slots', used', at);
        }
      } else {
        UnnumberedPassInvariant(scan[1..], slots, used, next);
      }
    }
  }

  /** Filling the hole the second pass picks keeps everything below it filled. */
  lemma FilledAfterPut(slots: Slots, next: nat, p: Placed)
    requires FilledBelow(slots, next)
    ensures FilledBelow(Put(slots, FirstFree(slots, next), p), FirstFree(slots, next))
  {
    var at := FirstFree(slots, next);
    var r := Put(slots, at, p);
    assert at <= |slots| || at == next;
    forall j | 0 <= j < at ensures j < |r| && r[j].Some? {
      if j < next {
        assert j < |slots| && slots[j].Some?;
      } else {
        assert next <= j < at;
        assert slots[j].Some?;
      }
      assert r[j] == slots[j];
    }
  }

  /**
   * When the second pass reaches an element without a step attribute whose
   * key is unclaimed, and every slot below its search position is filled (as
   * UnnumberedPrefixFilled shows for every state the pass reaches), the
   * element ends up in the lowest hole of the whole array, numbered by that
   * hole.
   */
  lemma UnnumberedTakesLowestHole(scan: seq<Element>, slots: Slots, used: seq<string>, next: nat)
    requires FilledBelow(slots, next)
    requires |scan| > 0 && scan[0].attrs.step.None? && !KeyCheck(scan[0].attrs.key, used).0
    ensures var r := UnnumberedPass(scan, slots, used, next);
      var at := FirstFree(slots, next);
      (at >= |slots| || slots[at].None?) && FilledBelow(slots, at) &&
      at < |r| && r[at] == Some(Placed(at + 1, Node(scan[0]), NoOverrides, false))
  {
    var e := scan[0];
    var at := FirstFree(slots, next);
    var used' := KeyCheck(e.attrs.key, used).1;
    var placed := Put(slots, at, Placed(at + 1, Node(e), NoOverrides, false));
    UnnumberedPassKeepsFilled(scan[1..], placed, used', at, at);
  }

  /** The state of the second pass once it has visited the elements of pre: slots, claimed keys, search position. */
  function UnnumberedPrefix(pre: seq<Element>, slots: Slots, used: seq<string>, next: nat): (Slots, seq<string>, nat)
    decreases |pre|
  {
    if |pre| == 0 then (slots, used, next)
    else
      var st := UnnumberedStep(pre[0], slots, used, next);
      UnnumberedPrefix(pre[1..], st.0, st.1, st.2)
  }

  /** The second pass over pre + post is the pass over post, started where the pass over pre left off. */
  lemma {:induction false} UnnumberedPassSplit(pre: seq<Element>, post: seq<Element>, slots: Slots, used: seq<string>, next: nat)
    ensures var st := UnnumberedPrefix(pre, slots, used, next);
      UnnumberedPass(pre + post, slots, used, next) == UnnumberedPass(post, st.0, st.1, st.2)
    decreases |pre|
  {
    if |pre| == 0 {
      assert pre + post == post;
    } else {
      UnnumberedPassUnfold(pre + post, slots, used, next);
      assert (pre + post)[0] == pre[0] && (pre + post)[1..] == pre[1..] + post;
      var st := UnnumberedStep(pre[0], slots, used, next);
      UnnumberedPassSplit(pre[1..], post, st.0, st.1, st.2);
    }
  }

  /** Every slot below the search position stays filled, however far the second pass has got. */
  lemma {:induction false} UnnumberedPrefixFilled(pre: seq<Element>, slots: Slots, used: seq<string>, next: nat)
    requires FilledBelow(slots, next)
    ensures var st := UnnumberedPrefix(pre, slots, used, next); FilledBelow(st.0, st.2)
    decreases |pre|
  {
    if |pre| > 0 {
      var e := pre[0];
      var st := UnnumberedStep(e, slots, used, next);
      if e.attrs.step.None? && !KeyCheck(e.attrs.key, used).0 {
        FilledAfterPut(slots, next, Placed(FirstFree(slots, next) + 1, Node(e), NoOverrides, false));
      }
      UnnumberedPrefixFilled(pre[1..], st.0, st.1, st.2);
    }
  }

  /**
   * In a declarative scan pre + [e] + post, an element without a step
   * attribute whose key is still unclaimed when the second pass reaches it
   * takes the lowest hole left by the first pass and the unnumbered elements
   * before it, and keeps it to the end, numbered by that hole.
   */
  lemma UnnumberedFillsLowestHole(pre: seq<Element>, e: Element, post: seq<Element>)
    requires e.attrs.step.None?
    requires var first := NumberedPass(pre + [e] + post, [], []);
      !KeyCheck(e.attrs.key, UnnumberedPrefix(pre, first.0, first.1, 0).1).0
    ensures var first := NumberedPass(pre + [e] + post, [], []);
      var st := UnnumberedPrefix(pre, first.0, first.1, 0);
      var at := FirstFree(st.0, st.2);
      var r := DeclarativeSlots(pre + [e] + post);
      (at >= |st.0| || st.0[at].None?) && FilledBelow(st.0, at) &&
      at < |r| && r[at] == Some(Placed(at + 1, Node(e), NoOverrides, false))
  {
    var scan := pre + [e] + post;
    var first := NumberedPass(scan, [], []);
    assert scan == pre + ([e] + post);
    UnnumberedPassSplit(pre, [e] + post, first.0, first.1, 0);
    UnnumberedPrefixFilled(pre, first.0, first.1, 0);
    var st := UnnumberedPrefix(pre, first.0, first.1, 0);
    UnnumberedTakesLowestHole([e] + post, st.0, st.1, st.2);
  }

  lemma DeclarativeSlotsInvariant(scan: seq<Element>)
    ensures var r := DeclarativeSlots(scan);
      WellNumberedFrom(r, 0) && SlotKeysDistinct(r) && FromScan(r)
  {
    NumberedPassInvariant(scan, [], []);
    var (slots, used) := NumberedPass(scan, [], []);
    UnnumberedPassInvariant(scan, slots, used, 0);
  }

  lemma {:induction false} CompactIncreasing(slots: Slots, base: int)
    requires WellNumberedFrom(slots, base)
    ensures StrictlyIncreasing(Compact(slots))
    ensures forall x :: x in Compact(slots) ==> x.step > base
  {
    if |slots| > 0 {
      var tail := slots[1..];
      assert WellNumberedFrom(tail, base + 1);
      CompactIncreasing(tail, base + 1);
      forall x | x in Compact(slots)
        ensures x.step > base
      {
        if x !in Compact(tail) {
          assert Some(x) in slots && Some(x) !in tail;
          assert slots[0] == Some(x);
        } else {
          assert Some(x) in tail;
        }
      }
    }
  }

  ghost predicate KeysDistinct(ps: seq<Placed>) {
    forall i, j :: (0 <= i < |ps| && 0 <= j < |ps| && i != j && Keyed(KeyOf(ps[i].target)))
      ==> KeyOf(ps[i].target) != KeyOf(ps[j].target)
  }

  lemma {:induction false} CompactKeysDistinct(slots: Slots)
    requires SlotKeysDistinct(slots)
    ensures KeysDistinct(Compact(slots))
  {
    if |slots| > 0 {
      var tail := slots[1..];
      assert SlotKeysDistinct(tail) by {
        forall a, b | 0 <= a < |tail| && 0 <= b < |tail| && a != b && tail[a].Some? && tail[b].Some?
            && Keyed(KeyOf(tail[a].value.target))
          ensures KeyOf(tail[a].value.target) != KeyOf(tail[b].value.target)
        {
          assert tail[a] == slots[a + 1] && tail[b] == slots[b + 1];
        }
      }
      CompactKeysDistinct(tail);
      if slots[0].Some? {
        var c := Compact(slots);
        var ct := Compact(tail);
        assert c == [slots[0].value] + ct;
        forall x | x in ct
          ensures KeyOf(x.target) != KeyOf(slots[0].value.target) || !Keyed(KeyOf(x.target))
          ensures KeyOf(x.target) != KeyOf(slots[0].value.target) || !Keyed(KeyOf(slots[0].value.target))
        {
          assert Some(x) in tail;
          var m :| 0 <= m < |tail| && tail[m] == Some(x);
          assert slots[m + 1] == Some(x);
        }
        forall a, b | 0 <= a < |c| && 0 <= b < |c| && a != b && Keyed(KeyOf(c[a].target))
          ensures KeyOf(c[a].target) != KeyOf(c[b].target)
        {
          if a > 0 && b > 0 {
            assert c[a] == ct[a - 1] && c[b] == ct[b - 1];
          } else if a == 0 {
            assert c[b] == ct[b - 1] && c[b] in ct;
          } else {
            assert c[a] == ct[a - 1] && c[a] in ct;
          }
        }
      } else {
        assert Compact(slots) == Compact(tail);
      }
    }
  }

  /** The placed items of a scan that finds something, before their metadata. */
  lemma DeclarativeOrderedIsCompact(scan: seq<Element>)
    ensures Ordered(Declarative(scan)) == Compact(DeclarativeSlots(scan))
    ensures StrictlyIncreasing(Ordered(Declarative(scan)))
    ensures KeysDistinct(Ordered(Declarative(scan)))
    ensures forall x :: x in Ordered(Declarative(scan)) <==> Some(x) in DeclarativeSlots(scan)
  {
    DeclarativeSlotsInvariant(scan);
    var slots := DeclarativeSlots(scan);
    CompactIncreasing(slots, 0);
    CompactKeysDistinct(slots);
    SortKeepsIncreasing(Compact(slots));
  }

  /** Every item a non-empty scan collects shows the target and step of a filled slot. */
  lemma CollectedFromSlots(scan: seq<Element>, opts: Options, textData: map<string, Intro>)
    requires |scan| > 0
    ensures var r := Collect(Declarative(scan), opts, textData);
      var ps := Ordered(Declarative(scan));
      r.Success? && |r.value| == |ps| &&
      (forall k :: 0 <= k < |ps| ==> r.value[k].target == ps[k].target && r.value[k].step == ps[k].step) &&
      (forall k :: 0 <= k < |ps| ==> Some(ps[k]) in DeclarativeSlots(scan))
  {
    var ps := Ordered(Declarative(scan));
    assert forall x :: x in ps ==> Some(x) in DeclarativeSlots(scan) by {
      DeclarativeOrderedIsCompact(scan);
    }
    assert forall k :: 0 <= k < |ps| ==> ps[k] in ps;
  }

  /**
   * Declarative collection yields items whose step numbers strictly increase,
   * all positive, and no two items share a non-empty data-intro-key.
   */
  lemma DeclarativeItemsOrderedAndUnique(scan: seq<Element>, opts: Options, textData: map<string, Intro>)
    requires |scan| > 0
    ensures var r := Collect(Declarative(scan), opts, textData);
      r.Success? &&
      (forall i, j :: 0 <= i < j < |r.value| ==> r.value[i].step < r.value[j].step) &&
      (forall i :: 0 <= i < |r.value| ==> r.value[i].step >= 1) &&
      (forall i, j :: 0 <= i < |r.value| && 0 <= j < |r.value| && i != j && Keyed(KeyOf(r.value[i].target))
         ==> KeyOf(r.value[i].target) != KeyOf(r.value[j].target))
  {
    DeclarativeOrderedIsCompact(scan);
    DeclarativeSlotsInvariant(scan);
    var ps := Ordered(Declarative(scan));
    CompactIncreasing(DeclarativeSlots(scan), 0);
    forall i | 0 <= i < |ps|
      ensures ps[i].step >= 1
    {
      assert ps[i] in ps;
    }
    assert Collect(Declarative(scan), opts, textData) == Success(Augment(ps, opts, textData));
    AugmentKeepsOrder(ps, opts, textData);
  }

  /** Adding metadata keeps the step numbers and targets, hence their order and keys. */
  lemma AugmentKeepsOrder(ps: seq<Placed>, opts: Options, textData: map<string, Intro>)
    requires StrictlyIncreasing(ps) && KeysDistinct(ps)
    requires forall i :: 0 <= i < |ps| ==> ps[i].step >= 1
    ensures var r := Augment(ps, opts, textData);
      (forall i, j :: 0 <= i < j < |r| ==> r[i].step < r[j].step) &&
      (forall i :: 0 <= i < |r| ==> r[i].step >= 1) &&
      (forall i, j :: 0 <= i < |r| && 0 <= j < |r| && i != j && Keyed(KeyOf(r[i].target))
         ==> KeyOf(r[i].target) != KeyOf(r[j].target))
  {
  }

  /** An empty scan makes collection fail. */
  lemma EmptyScanFails(opts: Options, textData: map<string, Intro>)
    ensures Collect(Declarative([]), opts, textData) == Failure(NoStepsFound)
  {
  }

  /**
   * An element whose step attribute is present but does not parse to a
   * positive number is in neither pass, so no collected item shows it.
   */
  lemma NonPositiveStepDropped(scan: seq<Element>, e: Element, opts: Options, textData: map<string, Intro>)
    requires |scan| > 0
    requires e.attrs.step.Some? && !Numbered(e)
    ensures var r := Collect(Declarative(scan), opts, textData);
      r.Success? && forall i :: 0 <= i < |r.value| ==> r.value[i].target != Node(e)
  {
    DeclarativeSlotsInvariant(scan);
    DeclarativeOrderedIsCompact(scan);
    var ps := Ordered(Declarative(scan));
    var slots := DeclarativeSlots(scan);
    forall i | 0 <= i < |ps|
      ensures ps[i].target != Node(e)
    {
      assert ps[i] in ps;
      var j :| 0 <= j < |slots| && slots[j] == Some(ps[i]);
    }
  }

  // -- a repeated explicit number overwrites the earlier element

  lemma {:induction false} NumberedPassSplit(pre: seq<Element>, post: seq<Element>, slots: Slots, used: seq<string>)
    ensures NumberedPass(pre + post, slots, used)
         == NumberedPass(post, NumberedPass(pre, slots, used).0, NumberedPass(pre, slots, used).1)
    decreases |pre|
  {
    if |pre| > 0 {
      assert (pre + post)[0] == pre[0];
      assert (pre + post)[1..] == pre[1..] + post;
      var e := pre[0];
      if Numbered(e) {
        var (dup, used') := KeyCheck(e.attrs.key, used);
        var n := StepNumber(e).value;
        NumberedPassSplit(pre[1..], post, if dup then slots else Put(slots, n - 1, Placed(n, Node(e), NoOverrides, false)), used');
      } else {
        NumberedPassSplit(pre[1..], post, slots, used);
      }
    } else {
      assert pre + post == post;
    }
  }

  /** A slot whose number no element of the scan asks for keeps its content through the first pass. */
  lemma {:induction false} NumberedPassKeepsSlot(scan: seq<Element>, slots: Slots, used: seq<string>, i: nat)
    requires i < |slots|
    requires forall x :: x in scan && Numbered(x) ==> StepNumber(x).value != i + 1
    ensures var r := NumberedPass(scan, slots, used).0; i < |r| && r[i] == slots[i]
    decreases |scan|
  {
    if |scan| > 0 {
      var e := scan[0];
      assert e in scan;
      assert forall x :: x in scan[1..] ==> x in scan;
      if Numbered(e) {
        var (dup, used') := KeyCheck(e.attrs.key, used);
        var n := StepNumber(e).value;
        NumberedPassKeepsSlot(scan[1..], if dup then slots else Put(slots, n - 1, Placed(n, Node(e), NoOverrides, false)), used', i);
      } else {
        NumberedPassKeepsSlot(scan[1..], slots, used, i);
      }
    }
  }

  /** The second pass only writes into holes, so a filled slot keeps its content. */
  lemma {:induction false} UnnumberedPassKeepsFilled(scan: seq<Element>, slots: Slots, used: seq<string>, next: nat, i: nat)
    requires i < |slots| && slots[i].Some?
    ensures var r := UnnumberedPass(scan, slots, used, next); i < |r| && r[i] == slots[i]
    decreases |scan|
  {
    if |scan| > 0 {
      var e := scan[0];
      if e.attrs.step.None? {
        var (dup, used') := KeyCheck(e.attrs.key, used);
        if dup {
          UnnumberedPassKeepsFilled(scan[1..], slots, used', next, i);
        } else {
          var at := FirstFree(slots, next);
          UnnumberedPassKeepsFilled(scan[1..], Put(slots, at, Placed(at + 1, Node(e), NoOverrides, false)), used', at, i);
        }
      } else {
        UnnumberedPassKeepsFilled(scan[1..], slots, used, next, i);
      }
    }
  }

  /**
   * When an element asks for number n, no numbered element before it has its
   * non-empty key, and no later element asks for n, it is collected with
   * step n, and every earlier element that asked for n has been overwritten
   * and is not collected.
   */
  lemma RepeatedNumberOverwrites(pre: seq<Element>, a: Element, post: seq<Element>,
                                 opts: Options, textData: map<string, Intro>)
    requires Numbered(a)
    requires Keyed(a.attrs.key) ==> forall x :: x in pre && Numbered(x) ==> x.attrs.key != a.attrs.key
    requires forall x :: x in post && Numbered(x) ==> StepNumber(x) != StepNumber(a)
    ensures var r := Collect(Declarative(pre + [a] + post), opts, textData);
      r.Success? &&
      (exists i :: 0 <= i < |r.value| && r.value[i].target == Node(a) && r.value[i].step == StepNumber(a).value) &&
      (forall b, i :: b in pre && b != a && b.attrs.step.Some? && StepNumber(b) == StepNumber(a) && 0 <= i < |r.value|
         ==> r.value[i].target != Node(b))
  {
    LastClaimantCollected(pre, a, post, opts, textData);
    forall b, i | b in pre && b != a && b.attrs.step.Some? && StepNumber(b) == StepNumber(a)
                  && 0 <= i < |Collect(Declarative(pre + [a] + post), opts, textData).value|
      ensures Collect(Declarative(pre + [a] + post), opts, textData).value[i].target != Node(b)
    {
      OverwrittenNotCollected(pre, a, post, b, opts, textData);
    }
  }

  /** The collected half of RepeatedNumberOverwrites for the last claimant. */
  lemma LastClaimantCollected(pre: seq<Element>, a: Element, post: seq<Element>,
                              opts: Options, textData: map<string, Intro>)
    requires Numbered(a)
    requires Keyed(a.attrs.key) ==> forall x :: x in pre && Numbered(x) ==> x.attrs.key != a.attrs.key
    requires forall x :: x in post && Numbered(x) ==> StepNumber(x) != StepNumber(a)
    ensures var r := Collect(Declarative(pre + [a] + post), opts, textData);
      r.Success? &&
      exists i :: 0 <= i < |r.value| && r.value[i].target == Node(a) && r.value[i].step == StepNumber(a).value
  {
    var scan := pre + [a] + post;
    var mine := Placed(StepNumber(a).value, Node(a), NoOverrides, false);
    var ps := Ordered(Declarative(scan));
    assert mine in ps by {
      LastClaimantHoldsSlot(pre, a, post);
      DeclarativeOrderedIsCompact(scan);
    }
    var k :| 0 <= k < |ps| && ps[k] == mine;
    CollectedFromSlots(scan, opts, textData);
  }

  /** The other half: an earlier element asking for the same number is not collected. */
  lemma OverwrittenNotCollected(pre: seq<Element>, a: Element, post: seq<Element>, b: Element,
                                opts: Options, textData: map<string, Intro>)
    requires Numbered(a)
    requires Keyed(a.attrs.key) ==> forall x :: x in pre && Numbered(x) ==> x.attrs.key != a.attrs.key
    requires forall x :: x in post && Numbered(x) ==> StepNumber(x) != StepNumber(a)
    requires b != a && b.attrs.step.Some? && StepNumber(b) == StepNumber(a)
    ensures var r := Collect(Declarative(pre + [a] + post), opts, textData);
      r.Success? && forall i :: 0 <= i < |r.value| ==> r.value[i].target != Node(b)
  {
    var scan := pre + [a] + post;
    var slots := DeclarativeSlots(scan);
    OverwrittenNotPlaced(pre, a, post, b);
    CollectedFromSlots(scan, opts, textData);
    var ps := Ordered(Declarative(scan));
    forall i | 0 <= i < |ps| ensures ps[i].target != Node(b) {
      var j :| 0 <= j < |slots| && slots[j] == Some(ps[i]);
    }
  }

  /** The slot-level half of RepeatedNumberOverwrites: an element overwritten in its slot is in no slot. */
  lemma OverwrittenNotPlaced(pre: seq<Element>, a: Element, post: seq<Element>, b: Element)
    requires Numbered(a)
    requires Keyed(a.attrs.key) ==> forall x :: x in pre && Numbered(x) ==> x.attrs.key != a.attrs.key
    requires forall x :: x in post && Numbered(x) ==> StepNumber(x) != StepNumber(a)
    requires b != a && b.attrs.step.Some? && StepNumber(b) == StepNumber(a)
    ensures NoSlotHolds(DeclarativeSlots(pre + [a] + post), b)
  {
    var slots := DeclarativeSlots(pre + [a] + post);
    var n := StepNumber(a).value;
    DeclarativeSlotsInvariant(pre + [a] + post);
    LastClaimantHoldsSlot(pre, a, post);
    forall j | 0 <= j < |slots| && slots[j].Some? ensures slots[j].value.target != Node(b) {
      assert slots[j].value.target == Node(b) ==> j == n - 1;
    }
  }

  /** An element whose non-empty key no numbered element of pre has finds its key unclaimed after pre. */
  lemma UnclaimedAfter(pre: seq<Element>, a: Element)
    requires Keyed(a.attrs.key) ==> forall x :: x in pre && Numbered(x) ==> x.attrs.key != a.attrs.key
    ensures !KeyCheck(a.attrs.key, NumberedPass(pre, [], []).1).0
  {
    var u0 := NumberedPass(pre, [], []).1;
    if a.attrs.key.Some? && a.attrs.key.value in u0 {
      if a.attrs.key.value == "" {
        NumberedPassInvariant(pre, [], []);
      } else {
        NumberedPassClaimsOnly(pre, [], []);
      }
    }
  }

  /**
   * The slot for number n ends up holding the last element that asks for n,
   * provided no numbered element before it claimed its non-empty key.
   */
  lemma LastClaimantHoldsSlot(pre: seq<Element>, a: Element, post: seq<Element>)
    requires Numbered(a)
    requires Keyed(a.attrs.key) ==> forall x :: x in pre && Numbered(x) ==> x.attrs.key != a.attrs.key
    requires forall x :: x in post && Numbered(x) ==> StepNumber(x) != StepNumber(a)
    ensures var slots := DeclarativeSlots(pre + [a] + post);
      StepNumber(a).value - 1 < |slots| &&
      slots[StepNumber(a).value - 1] == Some(Placed(StepNumber(a).value, Node(a), NoOverrides, false))
  {
    var scan := pre + [a] + post;
    var n := StepNumber(a).value;
    var mine := Placed(n, Node(a), NoOverrides, false);
    NumberedPassSplit(pre + [a], post, [], []);
    NumberedPassSplit(pre, [a], [], []);
    var (s0, u0) := NumberedPass(pre, [], []);
    UnclaimedAfter(pre, a);
    var (s1, u1) := NumberedPass(pre + [a], [], []);
    assert [a][1..] == [];
    assert s1 == Put(s0, n - 1, mine);
    NumberedPassKeepsSlot(post, s1, u1, n - 1);
    var (s2, u2) := NumberedPass(scan, [], []);
    assert s2 == NumberedPass(post, s1, u1).0;
    assert s2[n - 1] == Some(mine);
    UnnumberedPassKeepsFilled(scan, s2, u2, 0, n - 1);
  }

  // -- the first claim of a key wins

  /** No filled slot shows element b. */
  ghost predicate NoSlotHolds(slots: Slots, b: Element) {
    forall j :: 0 <= j < |slots| && slots[j].Some? ==> slots[j].value.target != Node(b)
  }

  lemma PutKeepsOut(slots: Slots, i: nat, p: Placed, b: Element)
    requires NoSlotHolds(slots, b) && p.target != Node(b)
    ensures NoSlotHolds(Put(slots, i, p), b)
  {
  }

  /** What the first pass does with one element: the slots and the claimed keys afterwards. */
  function NumberedStep(e: Element, slots: Slots, used: seq<string>): (Slots, seq<string>) {
    if Numbered(e) then
      var (dup, used') := KeyCheck(e.attrs.key, used);
      var n := StepNumber(e).value;
      (if dup then slots else Put(slots, n - 1, Placed(n, Node(e), NoOverrides, false)), used')
    else (slots, used)
  }

  lemma NumberedPassUnfold(scan: seq<Element>, slots: Slots, used: seq<string>)
    requires |scan| > 0
    ensures var st := NumberedStep(scan[0], slots, used);
      NumberedPass(scan, slots, used) == NumberedPass(scan[1..], st.0, st.1)
  {
  }

  /** What the second pass does with one element: the slots, the claimed keys and the search position afterwards. */
  function UnnumberedStep(e: Element, slots: Slots, used: seq<string>, next: nat): (Slots, seq<string>, nat) {
    if e.attrs.step.None? then
      var (dup, used') := KeyCheck(e.attrs.key, used);
      if dup then (slots, used', next)
      else
        var at := FirstFree(slots, next);
        (Put(slots, at, Placed(at + 1, Node(e), NoOverrides, false)), used', at)
    else (slots, used, next)
  }

  lemma UnnumberedPassUnfold(scan: seq<Element>, slots: Slots, used: seq<string>, next: nat)
    requires |scan| > 0
    ensures var st := UnnumberedStep(scan[0], slots, used, next);
      UnnumberedPass(scan, slots, used, next) == UnnumberedPass(scan[1..], st.0, st.1, st.2)
  {
  }

  /** A step of either pass keeps every claimed key claimed and places no element but the one it visits. */
  lemma StepFacts(e: Element, slots: Slots, used: seq<string>, next: nat, b: Element)
    ensures forall k :: k in used ==> k in NumberedStep(e, slots, used).1 && k in UnnumberedStep(e, slots, used, next).1
    ensures forall k :: k in NumberedStep(e, slots, used).1 ==> k in used || (Numbered(e) && e.attrs.key == Some(k))
    ensures Numbered(e) && Keyed(e.attrs.key) ==> e.attrs.key.value in NumberedStep(e, slots, used).1
    ensures e.attrs.step.None? && Keyed(e.attrs.key) ==> e.attrs.key.value in UnnumberedStep(e, slots, used, next).1
    ensures NoSlotHolds(slots, b) && (e != b || !Numbered(b)) ==> NoSlotHolds(NumberedStep(e, slots, used).0, b)
    ensures NoSlotHolds(slots, b) && (e != b || b.attrs.step.Some?) ==> NoSlotHolds(UnnumberedStep(e, slots, used, next).0, b)
    ensures NoSlotHolds(slots, b) && Keyed(b.attrs.key) && b.attrs.key.value in used ==>
      NoSlotHolds(NumberedStep(e, slots, used).0, b) && NoSlotHolds(UnnumberedStep(e, slots, used, next).0, b)
  {
    if NoSlotHolds(slots, b) {
      if Numbered(e) && e != b {
        PutKeepsOut(slots, StepNumber(e).value - 1, Placed(StepNumber(e).value, Node(e), NoOverrides, false), b);
      }
      if e.attrs.step.None? && e != b {
        var at := FirstFree(slots, next);
        PutKeepsOut(slots, at, Placed(at + 1, Node(e), NoOverrides, false), b);
      }
    }
  }

  /**
   * The keys claimed after the first pass include the ones claimed before it
   * and the non-empty key of every numbered element it visits, whether or
   * not that element keeps its slot.
   */
  lemma {:induction false} NumberedPassClaims(scan: seq<Element>, slots: Slots, used: seq<string>)
    ensures var u := NumberedPass(scan, slots, used).1;
      (forall k :: k in used ==> k in u) &&
      (forall x :: x in scan && Numbered(x) && Keyed(x.attrs.key) ==> x.attrs.key.value in u)
    decreases |scan|
  {
    if |scan| > 0 {
      var st := NumberedStep(scan[0], slots, used);
      NumberedPassUnfold(scan, slots, used);
      StepFacts(scan[0], slots, used, 0, scan[0]);
      assert forall x :: x in scan ==> x == scan[0] || x in scan[1..];
      NumberedPassClaims(scan[1..], st.0, st.1);
    }
  }

  /** The first pass claims no key but those of the numbered elements it visits. */
  lemma {:induction false} NumberedPassClaimsOnly(scan: seq<Element>, slots: Slots, used: seq<string>)
    ensures forall k :: k in NumberedPass(scan, slots, used).1 ==>
      k in used || exists x :: x in scan && Numbered(x) && x.attrs.key == Some(k)
    decreases |scan|
  {
    if |scan| > 0 {
      var st := NumberedStep(scan[0], slots, used);
      NumberedPassUnfold(scan, slots, used);
      StepFacts(scan[0], slots, used, 0, scan[0]);
      assert forall x :: x in scan[1..] ==> x in scan;
      assert scan[0] in scan;
      NumberedPassClaimsOnly(scan[1..], st.0, st.1);
    }
  }

  /** The first pass never places an element whose non-empty key is already claimed. */
  lemma {:induction false} NumberedPassSkipsClaimed(scan: seq<Element>, slots: Slots, used: seq<string>, b: Element)
    requires Keyed(b.attrs.key) && b.attrs.key.value in used && NoSlotHolds(slots, b)
    ensures NoSlotHolds(NumberedPass(scan, slots, used).0, b)
    decreases |scan|
  {
    if |scan| > 0 {
      var st := NumberedStep(scan[0], slots, used);
      NumberedPassUnfold(scan, slots, used);
      StepFacts(scan[0], slots, used, 0, b);
      NumberedPassSkipsClaimed(scan[1..], st.0, st.1, b);
    }
  }

  /** The first pass places only numbered elements of its scan. */
  lemma {:induction false} NumberedPassSkipsAbsent(scan: seq<Element>, slots: Slots, used: seq<string>, b: Element)
    requires NoSlotHolds(slots, b) && (b !in scan || !Numbered(b))
    ensures NoSlotHolds(NumberedPass(scan, slots, used).0, b)
    decreases |scan|
  {
    if |scan| > 0 {
      var st := NumberedStep(scan[0], slots, used);
      NumberedPassUnfold(scan, slots, used);
      assert scan[0] in scan;
      StepFacts(scan[0], slots, used, 0, b);
      assert forall x :: x in scan[1..] ==> x in scan;
      NumberedPassSkipsAbsent(scan[1..], st.0, st.1, b);
    }
  }

  /** The second pass never places an element whose non-empty key is already claimed. */
  lemma {:induction false} UnnumberedPassSkipsClaimed(scan: seq<Element>, slots: Slots, used: seq<string>, next: nat, b: Element)
    requires Keyed(b.attrs.key) && b.attrs.key.value in used && NoSlotHolds(slots, b)
    ensures NoSlotHolds(UnnumberedPass(scan, slots, used, next), b)
    decreases |scan|
  {
    if |scan| > 0 {
      var st := UnnumberedStep(scan[0], slots, used, next);
      UnnumberedPassUnfold(scan, slots, used, next);
      StepFacts(scan[0], slots, used, next, b);
      UnnumberedPassSkipsClaimed(scan[1..], st.0, st.1, st.2, b);
    }
  }

  /** The second pass never places an element that has a step attribute. */
  lemma {:induction false} UnnumberedPassSkipsStepped(scan: seq<Element>, slots: Slots, used: seq<string>, next: nat, b: Element)
    requires b.attrs.step.Some? && NoSlotHolds(slots, b)
    ensures NoSlotHolds(UnnumberedPass(scan, slots, used, next), b)
    decreases |scan|
  {
    if |scan| > 0 {
      var st := UnnumberedStep(scan[0], slots, used, next);
      UnnumberedPassUnfold(scan, slots, used, next);
      StepFacts(scan[0], slots, used, next, b);
      UnnumberedPassSkipsStepped(scan[1..], st.0, st.1, st.2, b);
    }
  }

  /**
   * In the second pass, once element scan[i] without a step attribute has
   * been visited its non-empty key is claimed, so an element with that key
   * that does not occur up to index i is never placed.
   */
  lemma {:induction false} UnnumberedPassLaterLoses(scan: seq<Element>, slots: Slots, used: seq<string>, next: nat,
                                                    i: nat, b: Element)
    requires i < |scan| && scan[i].attrs.step.None? && Keyed(scan[i].attrs.key)
    requires b.attrs.key == scan[i].attrs.key && forall k :: 0 <= k <= i ==> scan[k] != b
    requires NoSlotHolds(slots, b)
    ensures NoSlotHolds(UnnumberedPass(scan, slots, used, next), b)
    decreases |scan|
  {
    var st := UnnumberedStep(scan[0], slots, used, next);
    UnnumberedPassUnfold(scan, slots, used, next);
    StepFacts(scan[0], slots, used, next, b);
    if i == 0 {
      UnnumberedPassSkipsClaimed(scan[1..], st.0, st.1, st.2, b);
    } else {
      assert forall k :: 0 <= k <= i - 1 ==> scan[1..][k] == scan[k + 1];
      UnnumberedPassLaterLoses(scan[1..], st.0, st.1, st.2, i - 1, b);
    }
  }

  /**
   * Element scan[i] claims its key before element b would: the first pass
   * visits the numbered elements in page order, and after it the second pass
   * visits the elements without a step attribute in page order.
   */
  ghost predicate ClaimsBefore(scan: seq<Element>, i: nat, b: Element)
    requires i < |scan|
  {
    (Numbered(scan[i]) && (b.attrs.step.None? || b !in scan[..i + 1])) ||
    (scan[i].attrs.step.None? && b.attrs.step.None? && b !in scan[..i + 1])
  }

  /**
   * Once an element claims its non-empty data-intro-key, no element later in
   * claim order with the same key is collected, even when the claimant itself
   * is later overwritten by another element asking for its number.
   */
  lemma FirstClaimWins(scan: seq<Element>, i: nat, b: Element, opts: Options, textData: map<string, Intro>)
    requires i < |scan| && Keyed(scan[i].attrs.key) && b.attrs.key == scan[i].attrs.key
    requires ClaimsBefore(scan, i, b)
    ensures var r := Collect(Declarative(scan), opts, textData);
      r.Success? && forall k :: 0 <= k < |r.value| ==> r.value[k].target != Node(b)
  {
    var slots := DeclarativeSlots(scan);
    assert NoSlotHolds(slots, b) by {
      LaterClaimantNotPlaced(scan, i, b);
    }
    CollectedFromSlots(scan, opts, textData);
    var ps := Ordered(Declarative(scan));
    forall k | 0 <= k < |ps| ensures ps[k].target != Node(b) {
      var j :| 0 <= j < |slots| && slots[j] == Some(ps[k]);
    }
  }

  /** The slot-level half of FirstClaimWins, by the pass in which scan[i] claims its key. */
  lemma LaterClaimantNotPlaced(scan: seq<Element>, i: nat, b: Element)
    requires i < |scan| && Keyed(scan[i].attrs.key) && b.attrs.key == scan[i].attrs.key
    requires ClaimsBefore(scan, i, b)
    ensures NoSlotHolds(DeclarativeSlots(scan), b)
  {
    var a := scan[i];
    var first := NumberedPass(scan, [], []);
    assert DeclarativeSlots(scan) == UnnumberedPass(scan, first.0, first.1, 0);
    assert NoSlotHolds([], b);
    if Numbered(a) && b.attrs.step.None? {
      assert a in scan;
      NumberedPassClaims(scan, [], []);
      NumberedPassSkipsAbsent(scan, [], [], b);
      UnnumberedPassSkipsClaimed(scan, first.0, first.1, 0, b);
    } else if Numbered(a) {
      FirstPassClaimWins(scan, i, b);
      UnnumberedPassSkipsStepped(scan, first.0, first.1, 0, b);
    } else {
      NumberedPassSkipsAbsent(scan, [], [], b);
      assert forall k :: 0 <= k <= i ==> scan[k] == scan[..i + 1][k];
      UnnumberedPassLaterLoses(scan, first.0, first.1, 0, i, b);
    }
  }

  /** In the first pass, a numbered element that claims a key shuts out later elements with that key. */
  lemma FirstPassClaimWins(scan: seq<Element>, i: nat, b: Element)
    requires i < |scan| && Numbered(scan[i]) && Keyed(scan[i].attrs.key) && b.attrs.key == scan[i].attrs.key
    requires b !in scan[..i + 1]
    ensures NoSlotHolds(NumberedPass(scan, [], []).0, b)
  {
    var pre, post := scan[..i + 1], scan[i + 1..];
    assert scan == pre + post;
    assert scan[i] in pre;
    NumberedPassSplit(pre, post, [], []);
    var before := NumberedPass(pre, [], []);
    NumberedPassClaims(pre, [], []);
    assert NoSlotHolds([], b);
    NumberedPassSkipsAbsent(pre, [], [], b);
    NumberedPassSkipsClaimed(post, before.0, before.1, b);
  }

  // ---------------------------------------------------------------------------
  // Properties of the derived metadata
  // ---------------------------------------------------------------------------

  /**
   * The skip label of every item but the last defaults to the tour's skip
   * label and the last item's to its done label; position, previous and next
   * labels default to the tour's; a non-empty element attribute wins over the
   * default, and a descriptor's own property wins over both. The tooltip and
   * highlight classes have no default: the descriptor's own class, else the
   * element's attribute.
   */
  lemma LabelFallbacks(source: Source, opts: Options, textData: map<string, Intro>, i: nat)
    requires Collect(source, opts, textData).Success?
    requires i < |Collect(source, opts, textData).value|
    ensures var items := Collect(source, opts, textData).value;
      var p := Ordered(source)[i];
      var a := AttrsOf(p.target);
      (p.own.skipLabel.None? && !(a.skipLabel.Some? && a.skipLabel.value != "") ==>
         items[i].skipLabel == (if i < |items| - 1 then opts.skipLabel else opts.doneLabel)) &&
      (p.own.skipLabel.None? && a.skipLabel.Some? && a.skipLabel.value != "" ==> items[i].skipLabel == a.skipLabel.value) &&
      (p.own.skipLabel.Some? ==> items[i].skipLabel == p.own.skipLabel.value) &&
      (p.own.position.None? ==> items[i].position == OrElse(a.position, opts.tooltipPosition)) &&
      (p.own.position.Some? ==> items[i].position == p.own.position.value) &&
      (p.own.prevLabel.None? ==> items[i].prevLabel == OrElse(a.prevLabel, opts.prevLabel)) &&
      (p.own.prevLabel.Some? ==> items[i].prevLabel == p.own.prevLabel.value) &&
      (p.own.nextLabel.None? ==> items[i].nextLabel == OrElse(a.nextLabel, opts.nextLabel)) &&
      (p.own.nextLabel.Some? ==> items[i].nextLabel == p.own.nextLabel.value) &&
      items[i].tooltipClass == (if p.own.tooltipClass.Some? then p.own.tooltipClass else a.tooltipClass) &&
      items[i].highlightClass == (if p.own.highlightClass.Some? then p.own.highlightClass else a.highlightClass)
  {
  }

  /**
   * Where an item's intro comes from: a descriptor's own intro wins; then the
   * text dictionary's entry for the target's non-empty key; then the inline
   * text attribute; and the empty text when the target has none.
   */
  lemma IntroFallbacks(source: Source, opts: Options, textData: map<string, Intro>, i: nat)
    requires Collect(source, opts, textData).Success?
    requires i < |Collect(source, opts, textData).value|
    ensures var items := Collect(source, opts, textData).value;
      var p := Ordered(source)[i];
      var a := AttrsOf(p.target);
      var listed := Keyed(a.key) && a.key.value in textData;
      (p.own.intro.Some? ==> items[i].intro == p.own.intro.value) &&
      (p.own.intro.None? && listed ==> items[i].intro == textData[a.key.value]) &&
      (p.own.intro.None? && !listed && a.text.Some? ==> items[i].intro == Text(a.text.value)) &&
      (p.own.intro.None? && !listed && a.text.None? ==> items[i].intro == Text(""))
  {
  }

  /** Declarative items carry no properties of their own, so only the attributes override the defaults. */
  lemma DeclarativeItemsHaveNoOverrides(scan: seq<Element>)
    ensures forall p :: p in Ordered(Declarative(scan)) ==> p.own == NoOverrides && p.target.Node? && !p.skipOnMobile
  {
    var slots := DeclarativeSlots(scan);
    assert forall p: Placed :: Some(p) in slots ==> p.own == NoOverrides && p.target.Node? && !p.skipOnMobile by {
      DeclarativeSlotsInvariant(scan);
      ScannedSlotsPlain(slots);
    }
    assert forall x :: x in Ordered(Declarative(scan)) ==> Some(x) in slots by {
      DeclarativeOrderedIsCompact(scan);
    }
  }

  /** What the passes put into slots is a plain page element without properties of its own. */
  lemma ScannedSlotsPlain(slots: Slots)
    requires FromScan(slots)
    ensures forall p: Placed :: Some(p) in slots ==> p.own == NoOverrides && p.target.Node? && !p.skipOnMobile
  {
    forall p: Placed | Some(p) in slots
      ensures p.own == NoOverrides && p.target.Node? && !p.skipOnMobile
    {
      var j :| 0 <= j < |slots| && slots[j] == Some(p);
    }
  }

  // ---------------------------------------------------------------------------
  // Properties of programmatic collection
  // ---------------------------------------------------------------------------

  ghost predicate NumberedInOrder(ps: seq<Placed>) {
    forall j :: 0 <= j < |ps| ==> ps[j].step == j + 1
  }

  ghost predicate FloatingMarked(ps: seq<Placed>) {
    forall j :: 0 <= j < |ps| && ps[j].target.Floating? ==> ps[j].own.position == Some("floating")
  }

  ghost predicate AllDisplayed(ps: seq<Placed>) {
    forall j :: 0 <= j < |ps| ==> Displayed(ps[j].target)
  }

  lemma {:induction false} ProgrammaticPassFacts(steps: seq<Descriptor>, i: nat, acc: seq<Placed>,
                                                 skipMissing: (nat, Descriptor) -> bool)
    requires i <= |steps|
    requires NumberedInOrder(acc) && FloatingMarked(acc) && AllDisplayed(acc)
    ensures var r := ProgrammaticPass(steps, i, acc, skipMissing);
      NumberedInOrder(r) && FloatingMarked(r) && AllDisplayed(r)
      && |acc| <= |r| <= |acc| + |steps| - i && r[..|acc|] == acc
      && (forall k :: i <= k < |steps| && steps[k].element.Some? && steps[k].element.value.displayed
            ==> exists j :: 0 <= j < |r| && r[j].target == Node(steps[k].element.value))
    decreases |steps| - i
  {
    if i < |steps| {
      var d := steps[i];
      var floated := d.element.None? && !skipMissing(i, d);
      var kept := if d.element.Some? then d.element.value.displayed else floated;
      var target := if d.element.Some? then Node(d.element.value) else Floating;
      var own := if floated then d.own.(position := Some("floating")) else d.own;
      var acc' := if kept then acc + [Placed(|acc| + 1, target, own, d.skipOnMobile)] else acc;
      ProgrammaticPassFacts(steps, i + 1, acc', skipMissing);
      var r := ProgrammaticPass(steps, i, acc, skipMissing);
      assert r == ProgrammaticPass(steps, i + 1, acc', skipMissing);
      assert r[..|acc|] == r[..|acc'|][..|acc|];
      if kept && d.element.Some? {
        assert r[|acc|] == acc'[|acc|];
      }
    }
  }

  /**
   * Programmatic collection numbers the kept steps 1, 2, 3, ... in order,
   * keeps every descriptor whose element is displayed, keeps no more items
   * than descriptors, and every floating item is positioned 'floating'.
   */
  lemma ProgrammaticItems(steps: seq<Descriptor>, skipMissing: (nat, Descriptor) -> bool,
                          opts: Options, textData: map<string, Intro>)
    ensures var r := Collect(Programmatic(steps, skipMissing), opts, textData);
      r.Success? && |r.value| <= |steps| &&
      (forall i :: 0 <= i < |r.value| ==> r.value[i].step == i + 1) &&
      (forall i :: 0 <= i < |r.value| && r.value[i].target.Floating? ==> r.value[i].position == "floating") &&
      (forall i :: 0 <= i < |r.value| ==> Displayed(r.value[i].target)) &&
      (forall k :: 0 <= k < |steps| && steps[k].element.Some? && steps[k].element.value.displayed
         ==> exists i :: 0 <= i < |r.value| && r.value[i].target == Node(steps[k].element.value))
  {
    var ps := ProgrammaticPass(steps, 0, [], skipMissing);
    ProgrammaticPassFacts(steps, 0, [], skipMissing);
    assert StrictlyIncreasing(ps);
    SortKeepsIncreasing(ps);
  }

  /**
   * Gap filling on a small page: an unnumbered element, an element asking for
   * step 2, another unnumbered element. The numbered one keeps slot 2 and the
   * others take slots 1 and 3, in document order.
   */
  lemma GapFillingExample(opts: Options, textData: map<string, Intro>)
    ensures var r := Collect(Declarative([ExampleB, ExampleA, ExampleC]), opts, textData);
      r.Success? && |r.value| == 3
      && r.value[0].target == Node(ExampleB) && r.value[0].step == 1
      && r.value[1].target == Node(ExampleA) && r.value[1].step == 2
      && r.value[2].target == Node(ExampleC) && r.value[2].step == 3
  {
    ExampleOrdered();
    CollectedFromSlots([ExampleB, ExampleA, ExampleC], opts, textData);
  }

  lemma ExampleOrdered()
    ensures Ordered(Declarative([ExampleB, ExampleA, ExampleC]))
         == [Placed(1, Node(ExampleB), NoOverrides, false),
             Placed(2, Node(ExampleA), NoOverrides, false),
             Placed(3, Node(ExampleC), NoOverrides, false)]
  {
    var pa := Placed(2, Node(ExampleA), NoOverrides, false);
    var pb := Placed(1, Node(ExampleB), NoOverrides, false);
    var pc := Placed(3, Node(ExampleC), NoOverrides, false);
    var s3: Slots := [Some(pb), Some(pa), Some(pc)];
    assert Compact(s3) == [pb, pa, pc] by {
      assert s3[1..] == [Some(pa), Some(pc)];
      assert s3[1..][1..] == [Some(pc)];
    }
    ExampleSlots();
    OrderedFromSlots([ExampleB, ExampleA, ExampleC], s3, [pb, pa, pc]);
  }

  /** A scan whose slots compact to ps is ordered as ps. */
  lemma OrderedFromSlots(scan: seq<Element>, slots: Slots, ps: seq<Placed>)
    requires DeclarativeSlots(scan) == slots && Compact(slots) == ps
    ensures Ordered(Declarative(scan)) == ps
  {
    DeclarativeOrderedIsCompact(scan);
  }

  const ExampleA := Element(2, true, NoAttributes.(step := Some("2"), text := Some("Second")))
  const ExampleB := Element(1, true, NoAttributes.(text := Some("First")))
  const ExampleC := Element(3, true, NoAttributes.(text := Some("Third")))

  lemma ExampleAParses()
    ensures Numbered(ExampleA) && StepNumber(ExampleA) == Some(2)
  {
    assert "2"[0] == '2';
    ParseIntDigits("2");
    assert DigitsValue("2") == 2 by { assert "2"[..0] == ""; }
  }

  lemma ExampleFirstPass()
    ensures NumberedPass([ExampleB, ExampleA, ExampleC], [], [])
         == ([None, Some(Placed(2, Node(ExampleA), NoOverrides, false))], [])
  {
    var a := ExampleA;
    var c := ExampleC;
    ExampleAParses();
    var pa := Placed(2, Node(a), NoOverrides, false);
    assert [ExampleB, a, c][1..] == [a, c];
    assert [a, c][1..] == [c];
    assert [c][1..] == [];
    var s1: Slots := [None, Some(pa)];
    assert Put([], 1, pa) == s1;
    assert NumberedPass([c], s1, []) == (s1, []);
    assert NumberedPass([a, c], [], []) == (s1, []);
  }

  lemma ExampleSlots()
    ensures DeclarativeSlots([ExampleB, ExampleA, ExampleC])
         == [Some(Placed(1, Node(ExampleB), NoOverrides, false)),
             Some(Placed(2, Node(ExampleA), NoOverrides, false)),
             Some(Placed(3, Node(ExampleC), NoOverrides, false))]
  {
    var a := ExampleA;
    var c := ExampleC;
    var pa := Placed(2, Node(a), NoOverrides, false);
    var pb := Placed(1, Node(ExampleB), NoOverrides, false);
    var pc := Placed(3, Node(c), NoOverrides, false);
    ExampleFirstPass();
    var s1: Slots := [None, Some(pa)];
    var s2: Slots := [Some(pb), Some(pa)];
    var s3: Slots := [Some(pb), Some(pa), Some(pc)];
    assert [ExampleB, a, c][1..] == [a, c];
    assert [a, c][1..] == [c];
    assert [c][1..] == [];
    assert FirstFree(s1, 0) == 0;
    assert Put(s1, 0, pb) == s2;
    assert FirstFree(s2, 0) == 2;
    assert Put(s2, 2, pc) == s3;
    assert UnnumberedPass([c], s2, [], 0) == s3;
    assert UnnumberedPass([a, c], s2, [], 0) == s3;
  }
}
