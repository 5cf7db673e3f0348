/**
 * The type-ahead control of the embedded discovery widget: a case-insensitive
 * substring search over the catalog's display names and entityIDs, and the
 * little state machine behind the drop-down (the highlighted row, the hidden
 * "origin" field the form submits, and the enabled state of the submit button).
 * The DOM is replaced by a state record; each handler is a function on it.
 */
module Typeahead {
  import opened Wrappers
  import Text
  import Catalog

  /** The control's `maxResults`: more hits than this hide the drop-down. */
  const MaxResults := 35

  /** One search result: display name, entityID and the 16x16 icon URL, if any. */
  datatype Hit = Hit(name: string, entityId: string, icon: Option<string>)

  /** The records the widget hands the control: `getLocalizedName`, `getEntityId` and `geticon` of each IdP. */
  function Records(catalog: seq<Catalog.Provider>, loc: Catalog.Locale): (r: seq<Hit>)
    ensures |r| == |catalog|
    ensures forall k :: 0 <= k < |r| ==> r[k].entityId == catalog[k].entityId
  {
    seq(|catalog|, k requires 0 <= k < |catalog| =>
      Hit(Catalog.LocalizedName(catalog[k], loc), catalog[k].entityId, Catalog.GetIcon(catalog[k].logos, loc)))
  }

  /** A record matches when the lower-cased query occurs in its lower-cased name or entityID. */
  predicate IsHit(h: Hit, query: string) {
    Text.Contains(Text.Lower(h.name), Text.Lower(query))
    || Text.Contains(Text.Lower(h.entityId), Text.Lower(query))
  }

  /** Every matching record, in catalog order. */
  function Hits(records: seq<Hit>, query: string): (r: seq<Hit>)
    ensures |r| <= |records|
    ensures forall k :: 0 <= k < |r| ==> IsHit(r[k], query)
    ensures forall k :: 0 <= k < |r| ==> r[k] in records
    ensures forall k :: 0 <= k < |records| && IsHit(records[k], query) ==> records[k] in r
  {
    if |records| == 0 then []
    else
      var init := records[..|records| - 1];
      var last := records[|records| - 1];
      assert forall k :: 0 <= k < |init| ==> init[k] == records[k];
      Hits(init, query) + (if IsHit(last, query) then [last] else [])
  }

  lemma {:induction false} HitsAppend(a: seq<Hit>, b: seq<Hit>, query: string)
    ensures Hits(a + b, query) == Hits(a, query) + Hits(b, query)
    decreases |b|
  {
    if |b| == 0 {
      assert a + b == a;
    } else {
      var b' := b[..|b| - 1];
      assert (a + b)[..|a + b| - 1] == a + b';
      assert (a + b)[|a + b| - 1] == b[|b| - 1];
      HitsAppend(a, b', query);
    }
  }

  lemma HitsSnoc(records: seq<Hit>, i: nat, query: string)
    requires i < |records|
    ensures Hits(records[..i + 1], query)
            == Hits(records[..i], query) + (if IsHit(records[i], query) then [records[i]] else [])
  {
    assert records[..i + 1][..i] == records[..i];
  }

  /** The empty query matches every record. */
  lemma EmptyQueryMatchesAll(records: seq<Hit>)
    ensures Hits(records, "") == records
  {
    if |records| > 0 {
      var init := records[..|records| - 1];
      var last := records[|records| - 1];
      assert Text.OccursAt(Text.Lower(last.name), "", 0);
      EmptyQueryMatchesAll(init);
      assert init + [last] == records;
    }
  }

  /** What `getPossible` returns: the first `MaxResults + 1` hits, one more than can be shown. */
  function Possible(records: seq<Hit>, query: string): (r: seq<Hit>)
    ensures |r| <= MaxResults + 1
    ensures |Hits(records, query)| <= MaxResults + 1 ==> r == Hits(records, query)
    ensures |Hits(records, query)| > MaxResults + 1 ==> r == Hits(records, query)[..MaxResults + 1]
  {
    var h := Hits(records, query);
    if |h| <= MaxResults + 1 then h else h[..MaxResults + 1]
  }

  /**
   * `getPossible`: scans the records while fewer than `MaxResults + 1` hits
   * are collected, testing the name first and the entityID only on a miss.
   */
  method GetPossible(records: seq<Hit>, query: string) returns (possibles: seq<Hit>)
    ensures possibles == Possible(records, query)
  {
    var name := Text.Lower(query);
    possibles := [];
    var inIndex := 0;
    while |possibles| <= MaxResults && inIndex < |records|
      invariant 0 <= inIndex <= |records|
      invariant possibles == Hits(records[..inIndex], query)
      invariant |possibles| <= MaxResults + 1
    {
      var h := records[inIndex];
      var hit := false;
      if Text.IndexOf(Text.Lower(h.name), name) != -1 {
        hit := true;
      }
      if !hit && Text.IndexOf(Text.Lower(h.entityId), name) != -1 {
        hit := true;
      }
      assert hit == IsHit(h, query);
      HitsSnoc(records, inIndex, query);
      if hit {
        possibles := possibles + [h];
      }
      inIndex := inIndex + 1;
    }
    if inIndex == |records| {
      assert records[..inIndex] == records;
    } else {
      assert records == records[..inIndex] + records[inIndex..];
      HitsAppend(records[..inIndex], records[inIndex..], query);
    }
  }

  /**
   * The control's state. `labels` are the drop-down rows' texts, `current` the
   * highlighted row (-1 for none), `originValue`/`originText` the hidden form
   * field and the name it stands for, `visible` whether the drop-down shows.
   */
  datatype State = State(text: string, results: seq<Hit>, labels: seq<string>, current: int,
                         submitEnabled: bool, originValue: string, originText: Option<string>,
                         visible: bool)

  /** The control as the widget builds it: empty text box, hidden field "-", submit disabled. */
  function Initial(): (r: State)
    ensures r.current == -1 && !r.submitEnabled && !r.visible && r.originValue == "-"
  {
    State("", [], [], -1, false, "-", None, false)
  }

  /**
   * The invariant every handler keeps: the cursor is -1 or a result index, the
   * button is enabled exactly when a row is highlighted, the hidden field holds
   * the highlighted result's entityID, and a visible drop-down shows one row
   * per result.
   */
  predicate Wf(records: seq<Hit>, s: State) {
    -1 <= s.current < |s.results|
    && (s.submitEnabled <==> s.current != -1)
    && (s.current != -1 ==> s.originValue == s.results[s.current].entityId
                            && s.originText == Some(s.results[s.current].name))
    && (s.visible ==> |s.labels| == |s.results| && |s.results| > 0)
    && (forall k :: 0 <= k < |s.results| ==> s.results[k] in records)
  }

  lemma InitialWf(records: seq<Hit>)
    ensures Wf(records, Initial())
  {
  }

  /**
   * The text of a drop-down row: the name cut to `maxchars` characters, or to
   * `maxchars - 2` behind a space when an icon precedes it.
   */
  function Label(h: Hit, maxchars: int): (r: string)
    ensures h.icon.Some? ==> |r| > 0 && r[0] == ' ' && Text.StartsWith(h.name, r[1..])
                             && |r| - 1 == Min(|h.name|, Max(maxchars - 2, 0))
    ensures h.icon.None? ==> Text.StartsWith(h.name, r) && |r| == Min(|h.name|, Max(maxchars, 0))
  {
    var n := if h.icon.Some? then maxchars - 2 else maxchars;
    var str := if |h.name| > n then h.name[..Max(n, 0)] else h.name;
    if h.icon.Some? then assert (" " + str)[1..] == str; " " + str else str
  }

  function Min(a: int, b: int): int { if a < b then a else b }
  function Max(a: int, b: int): int { if a < b then b else a }

  /** `populateDropDown`: one label per result. */
  function Labels(results: seq<Hit>, maxchars: int): (r: seq<string>)
    ensures |r| == |results|
    ensures forall k :: 0 <= k < |r| ==> r[k] == Label(results[k], maxchars)
  {
    seq(|results|, k requires 0 <= k < |results| => Label(results[k], maxchars))
  }

  function DoSelected(s: State): State { s.(submitEnabled := true) }
  function DoUnselected(s: State): State { s.(submitEnabled := false) }

  /** Highlights result `i` and copies its entityID and name into the hidden field. */
  function Highlight(s: State, i: int): (r: State)
    requires 0 <= i < |s.results|
  {
    s.(current := i, submitEnabled := true,
       originValue := s.results[i].entityId, originText := Some(s.results[i].name))
  }

  /**
   * `select`: clears the highlight and disables the button, then highlights
   * the row the mouse is over. `row` is `None` when the node under the mouse
   * is not a row (the icon image inside a row, the drop-down itself).
   */
  function Select(records: seq<Hit>, s: State, row: Option<nat>): (r: State)
    requires Wf(records, s) && s.visible
    ensures Wf(records, r)
    ensures row.Some? && row.value < |s.labels| ==>
              r.current == row.value && r.submitEnabled && r.originValue == s.results[row.value].entityId
    ensures !(row.Some? && row.value < |s.labels|) ==> r.current == -1 && !r.submitEnabled
    ensures r.results == s.results && r.text == s.text && r.visible
  {
    var cleared := DoUnselected(s.(current := -1));
    if row.Some? && row.value < |s.labels| then Highlight(cleared, row.value) else cleared
  }

  /** `hideDrop`: hides the drop-down; the button is disabled only when no row is highlighted. */
  function HideDrop(s: State): (r: State)
    ensures !r.visible
    ensures r.current == s.current && r.results == s.results && r.text == s.text
    ensures s.current == -1 ==> !r.submitEnabled
    ensures s.current != -1 ==> r.submitEnabled == s.submitEnabled
  {
    var hidden := s.(visible := false);
    if s.current == -1 then DoUnselected(hidden) else hidden
  }

  /**
   * The drop-down after a search for `q`: hidden and empty when nothing or more
   * than `MaxResults` records match; the single hit highlighted, its entityID in
   * the hidden field and submit enabled when one matches; otherwise the hits with
   * nothing highlighted.
   */
  predicate ShowsSearch(records: seq<Hit>, q: string, r: State)
  {
    var n := |Hits(records, q)|;
    (n == 0 || n > MaxResults ==> r.results == [] && r.current == -1 && !r.submitEnabled && !r.visible)
    && (n == 1 ==> r.results == Hits(records, q) && r.current == 0 && r.submitEnabled
                   && r.originValue == Hits(records, q)[0].entityId && r.visible)
    && (2 <= n <= MaxResults ==> r.results == Hits(records, q) && r.current == -1
                                 && !r.submitEnabled && r.visible)
  }

  /**
   * `handleChange`: searches for the text box's value. No hit, or more than
   * `MaxResults`, empties the results; exactly one hit is selected at once;
   * otherwise the drop-down shows the hits with nothing highlighted.
   */
  function HandleChange(records: seq<Hit>, maxchars: int, s: State): (r: State)
    requires Wf(records, s)
    ensures Wf(records, r)
    ensures r.text == s.text
    ensures ShowsSearch(records, s.text, r)
  {
    var res := Possible(records, s.text);
    var reset := s.(current := -1);
    if 0 == |res| || MaxResults < |res| then
      DoUnselected(HideDrop(reset)).(results := [], current := -1)
    else
      var shown := DoUnselected(reset).(results := res, labels := Labels(res, maxchars), visible := true);
      if 1 == |res| then DoSelected(Select(records, shown, Some(0))) else DoUnselected(shown)
  }

  /** `downSelect`: from no highlight to the first row, else one row down; a no-op at the last row. */
  function DownSelect(records: seq<Hit>, s: State): (r: State)
    requires Wf(records, s)
    ensures Wf(records, r)
    ensures |s.results| == 0 ==> r == s
    ensures |s.results| > 0 && s.current == -1 ==> r.current == 0 && r.submitEnabled
    ensures 0 <= s.current < |s.results| - 1 ==>
              r.current == s.current + 1 && r.submitEnabled && r.originValue == s.results[s.current + 1].entityId
    ensures s.current == |s.results| - 1 ==> r == s
  {
    if |s.results| > 0 then
      if -1 == s.current then Highlight(s, 0)
      else if s.current < |s.results| - 1 then Highlight(s, s.current + 1)
      else s
    else s
  }

  /** `upSelect`: one row up when a row below the first is highlighted; otherwise a no-op. */
  function UpSelect(records: seq<Hit>, s: State): (r: State)
    requires Wf(records, s)
    ensures Wf(records, r)
    ensures s.current > 0 ==> r.current == s.current - 1 && r.submitEnabled
                              && r.originValue == s.results[s.current - 1].entityId
    ensures s.current <= 0 ==> r == s
  {
    if |s.results| > 0 && s.current > 0 then Highlight(s, s.current - 1) else s
  }

  /** The keys on whose release `handleKeyUp` searches again: Backspace, Space, Delete up to F1, and above F12. */
  predicate Researches(key: int) {
    8 == key || 32 == key || (key >= 46 && key < 112) || key > 123
  }

  /** `handleKeyUp`: Escape clears the text box and searches; the keys of `Researches` search. */
  function HandleKeyUp(records: seq<Hit>, maxchars: int, s: State, key: int): (r: State)
    requires Wf(records, s)
    ensures Wf(records, r)
    ensures key == 27 ==> r.text == "" && ShowsSearch(records, "", r)
    ensures key != 27 && Researches(key) ==> r.text == s.text && ShowsSearch(records, s.text, r)
    ensures key != 27 && !Researches(key) ==> r == s
  {
    if 27 == key then HandleChange(records, maxchars, s.(text := ""))
    else if Researches(key) then HandleChange(records, maxchars, s)
    else s
  }

  /** `handleKeyDown`: the up and down arrows move the highlight. */
  function HandleKeyDown(records: seq<Hit>, s: State, key: int): (r: State)
    requires Wf(records, s)
    ensures Wf(records, r)
    ensures key != 38 && key != 40 ==> r == s
  {
    if 38 == key then UpSelect(records, s)
    else if 40 == key then DownSelect(records, s)
    else s
  }

  /** The drop-down's `onmousedown`: copies the highlighted name into the text box. */
  function MouseDown(records: seq<Hit>, s: State): (r: State)
    requires Wf(records, s)
    ensures Wf(records, r)
    ensures s.current != -1 ==> r.text == s.results[s.current].name
    ensures r.current == s.current && r.results == s.results && r.originValue == s.originValue
  {
    if -1 != s.current then s.(text := s.results[s.current].name) else s
  }

  /**
   * What reaches the control. `Edit` is the browser changing the text box's
   * value before the key is released. A hidden drop-down receives no mouse events.
   */
  datatype Event = KeyUp(key: int) | KeyDown(key: int) | Edit(text: string)
                 | MouseOver(row: Option<nat>) | MousePress | Focus | Blur

  function Step(records: seq<Hit>, maxchars: int, s: State, e: Event): (r: State)
    requires Wf(records, s)
    ensures Wf(records, r)
  {
    match e
    case KeyUp(k) => HandleKeyUp(records, maxchars, s, k)
    case KeyDown(k) => HandleKeyDown(records, s, k)
    case Edit(t) => s.(text := t)
    case MouseOver(row) => if s.visible then Select(records, s, row) else s
    case MousePress => if s.visible then MouseDown(records, s) else s
    case Focus => HandleChange(records, maxchars, s)
    case Blur => HideDrop(s)
  }

  /** Any sequence of events, from any well-formed state. */
  function Run(records: seq<Hit>, maxchars: int, s: State, es: seq<Event>): (r: State)
    requires Wf(records, s)
    ensures Wf(records, r)
    decreases |es|
  {
    if |es| == 0 then s else Run(records, maxchars, Step(records, maxchars, s, es[0]), es[1..])
  }

  /**
   * Whatever the user does, an enabled submit button means the hidden field
   * holds the entityID of a catalog record.
   */
  lemma SubmitNamesRecord(records: seq<Hit>, maxchars: int, es: seq<Event>)
    ensures var r := Run(records, maxchars, Initial(), es);
      r.submitEnabled ==> exists k :: 0 <= k < |records| && records[k].entityId == r.originValue
  {
    var r := Run(records, maxchars, Initial(), es);
    if r.submitEnabled {
      assert r.results[r.current] in records;
    }
  }

  /** The arrow keys never search again on release, so the highlight stays. */
  lemma ArrowKeyUpKeepsState(records: seq<Hit>, maxchars: int, s: State, key: int)
    requires Wf(records, s) && 37 <= key <= 40
    ensures HandleKeyUp(records, maxchars, s, key) == s
  {
  }
}
