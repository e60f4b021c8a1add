/** The hero search box (`initSearchBox`): a dropdown of five fixed topics
    filtered by what is typed, its `show` class, and the explore button's
    `active` class. */
module SearchBox {
  import opened Wrappers
  import opened Text

  /** The suggestion texts, in dropdown order. */
  const Topics: seq<string> :=
    ["Algebra Basics", "Geometry", "Quadratic Equations", "Data Analysis", "Trigonometry"]

  /** Which suggestions are displayed, whether the dropdown has `show`, and
      whether the explore button has `active`. */
  datatype Search = Search(visible: seq<bool>, show: bool, active: bool)

  datatype Event =
    | Typed(value: string)   // an `input` event; `value` is the field's text
    | ExploreClick           // the explore button (it stops propagation)
    | ClickInsideBox         // any other click inside the search box
    | ClickOutside           // a click anywhere outside the search box

  /** Every suggestion is displayed and the dropdown is hidden at load. */
  function Init(): (s: Search)
    ensures WellFormed(s)
    ensures forall i :: 0 <= i < |Topics| ==> s.visible[i]
    ensures !s.show && !s.active
  {
    Search(seq(|Topics|, _ => true), false, false)
  }

  predicate WellFormed(s: Search) {
    |s.visible| == |Topics|
  }

  /** The display decision for every suggestion: shown exactly when the
      lower-cased query occurs in the lower-cased suggestion text. */
  function Filter(query: string): (r: seq<bool>)
    ensures |r| == |Topics|
    ensures forall i :: 0 <= i < |Topics| ==>
      (r[i] <==> IsSubstring(Lower(query), Lower(Topics[i])))
  {
    var q := Lower(query);
    seq(|Topics|, i requires 0 <= i < |Topics| => Includes(Lower(Topics[i]), q))
  }

  /** The input handler: filter, and force the dropdown open on a non-empty
      query. The explore button's `active` class is not touched. */
  function Input(s: Search, value: string): (r: Search)
    ensures WellFormed(r)
    ensures r.visible == Filter(value)
    ensures r.active == s.active
    ensures value != [] ==> r.show
    ensures value == [] ==> r.show == s.show
  {
    Search(Filter(value), s.show || Lower(value) != [], s.active)
  }

  function Step(s: Search, e: Event): Search {
    match e
    case Typed(value) => Input(s, value)
    case ExploreClick => s.(show := !s.show, active := !s.active)
    case ClickInsideBox => s
    case ClickOutside => s.(show := false, active := false)
  }

  function Run(s: Search, events: seq<Event>): Search
    decreases |events|
  {
    if events == [] then s else Run(Step(s, events[0]), events[1..])
  }

  lemma {:induction false} RunWellFormed(s: Search, events: seq<Event>)
    requires WellFormed(s)
    ensures WellFormed(Run(s, events))
    decreases |events|
  {
    if events != [] {
      RunWellFormed(Step(s, events[0]), events[1..]);
    }
  }

  /** The last value typed in `events`, if any was typed. */
  function LastTyped(events: seq<Event>): Option<string>
    decreases |events|
  {
    if events == [] then None
    else match LastTyped(events[1..])
      case Some(q) => Some(q)
      case None => if events[0].Typed? then Some(events[0].value) else None
  }

  /** Only typing changes which suggestions are displayed: after any events
      the display is the filter of the last value typed, or what it was
      before when nothing was typed. */
  lemma {:induction false} RunVisible(s: Search, events: seq<Event>)
    ensures Run(s, events).visible ==
      match LastTyped(events)
      case None => s.visible
      case Some(q) => Filter(q)
    decreases |events|
  {
    if events != [] {
      RunVisible(Step(s, events[0]), events[1..]);
    }
  }

  /** From page load, every suggestion is displayed (`Init`) until something
      is typed, and from then on exactly those matching the last value typed. */
  lemma LoadedVisible(events: seq<Event>)
    ensures var v := Run(Init(), events).visible;
      && (LastTyped(events).None? ==> v == Init().visible)
      && (LastTyped(events).Some? ==> v == Filter(LastTyped(events).value))
  {
    RunVisible(Init(), events);
  }

  /** An empty query displays every suggestion. */
  lemma EmptyQueryShowsAll(s: Search)
    ensures forall i :: 0 <= i < |Topics| ==> Input(s, "").visible[i]
  {
    forall i | 0 <= i < |Topics| ensures Input(s, "").visible[i] {
      assert OccursAt(Lower(Topics[i]), Lower(""), 0);
    }
  }

  /** Matching ignores ASCII case: `"Q"` keeps only `Quadratic Equations`. */
  lemma CaseInsensitiveExample(s: Search)
    ensures Input(s, "Q").visible == [false, false, true, false, false]
  {
    var q := Lower("Q");
    assert q == "q";
    assert OccursAt(Lower(Topics[2]), q, 0);
    LacksFirstChar(q, Lower(Topics[0]));
    LacksFirstChar(q, Lower(Topics[1]));
    LacksFirstChar(q, Lower(Topics[3]));
    LacksFirstChar(q, Lower(Topics[4]));
  }

  /** A text without the query's first character does not contain the query. */
  lemma LacksFirstChar(q: string, text: string)
    requires q != []
    requires forall k :: 0 <= k < |text| ==> text[k] != q[0]
    ensures !IsSubstring(q, text)
  {
    forall i | 0 <= i && i + |q| <= |text|
      ensures !OccursAt(text, q, i)
    {
      assert text[i..i + |q|][0] == text[i];
    }
  }

  /** Typing one more character never brings a hidden suggestion back: an
      occurrence of the longer query is one of its prefix. */
  lemma {:induction false} TypingNarrows(query: string, c: char)
    ensures forall i :: 0 <= i < |Topics| && Filter(query + [c])[i] ==> Filter(query)[i]
  {
    var q, q' := Lower(query), Lower(query + [c]);
    assert q'[..|q|] == q;
    forall i | 0 <= i < |Topics| && Filter(query + [c])[i]
      ensures Filter(query)[i]
    {
      var text := Lower(Topics[i]);
      var k :| OccursAt(text, q', k);
      assert text[k..k + |q|] == text[k..k + |q'|][..|q|];
      assert OccursAt(text, q, k);
    }
  }

  /** The dropdown and the button's mark can disagree: typing opens the
      dropdown but leaves the button unmarked. */
  lemma ShowWithoutActive()
    ensures var s := Step(Init(), Typed("a"));
      s.show && !s.active
  {
  }

  /** Clicking outside the search box clears both marks. */
  lemma OutsideClickClears(s: Search)
    ensures !Step(s, ClickOutside).show && !Step(s, ClickOutside).active
    ensures Step(s, ClickOutside).visible == s.visible
  {
  }

  /** The explore button is an independent toggle: two clicks undo each other. */
  lemma ExploreTwice(s: Search)
    ensures Step(Step(s, ExploreClick), ExploreClick) == s
  {
  }
}
