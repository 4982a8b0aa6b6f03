/** The language switch of the landing page: which language button and which
    `.lang-content` panels carry the `active` class, the body's text
    direction and alignment, and the language preference kept in local
    storage under `preferred-language`. */
module LanguageSwitch {

  datatype Option<T> = None | Some(value: T)

  /** A language button or a content panel: its `data-lang` attribute and
      whether its class list holds `active`. */
  datatype Tagged = Tagged(lang: string, active: bool)

  /** The body's `dir` attribute. */
  datatype Direction = Ltr | Rtl

  /** The body's inline `text-align`. */
  datatype Align = Left | Right

  datatype PageState = PageState(
    buttons: seq<Tagged>,      // the `.lang-btn` elements, in document order
    panels: seq<Tagged>,       // the `.lang-content` elements, in document order
    dir: Direction,
    align: Align,
    preference: Option<string> // local storage entry `preferred-language`
  )

  /** A call of switchLanguage either returns, or throws a TypeError part-way
      through; either way the page is left in some state. */
  datatype Outcome = Returned(page: PageState) | Threw(page: PageState)

  const DefaultLanguage: string := "ru"
  const RightToLeftLanguage: string := "ar"

  /** Same `data-lang` attributes, position by position. */
  predicate SameLangs(a: seq<Tagged>, b: seq<Tagged>)
  {
    |a| == |b| && forall i :: 0 <= i < |a| ==> a[i].lang == b[i].lang
  }

  predicate HasLang(ts: seq<Tagged>, lang: string)
  {
    exists i :: 0 <= i < |ts| && ts[i].lang == lang
  }

  /** No two elements share a `data-lang` attribute. */
  predicate DistinctLangs(ts: seq<Tagged>)
  {
    forall i, j :: 0 <= i < j < |ts| ==> ts[i].lang != ts[j].lang
  }

  /** Every button loses the `active` class (the first forEach). */
  function Deactivate(ts: seq<Tagged>): (r: seq<Tagged>)
    ensures SameLangs(r, ts) && forall i :: 0 <= i < |r| ==> !r[i].active
  {
    seq(|ts|, i requires 0 <= i < |ts| => ts[i].(active := false))
  }

  /** The element `querySelector` finds by `data-lang`: the first one in
      document order, if any. */
  function FirstWithLang(ts: seq<Tagged>, lang: string): (r: Option<nat>)
    ensures r.None? <==> !HasLang(ts, lang)
    ensures r.Some? ==> r.value < |ts| && ts[r.value].lang == lang &&
                        forall k :: 0 <= k < r.value ==> ts[k].lang != lang
  {
    if ts == [] then None
    else if ts[0].lang == lang then Some(0)
    else
      match FirstWithLang(ts[1..], lang)
      case None =>
        assert forall k :: 1 <= k < |ts| ==> ts[k] == ts[1..][k - 1];
        None
      case Some(j) => Some(j + 1)
  }

  /** The panel loop: panels keep their number, order and languages, and a
      panel is active exactly when its language is the chosen one. */
  function ShowOnly(ps: seq<Tagged>, lang: string): (r: seq<Tagged>)
    ensures SameLangs(r, ps)
    ensures forall i :: 0 <= i < |r| ==> (r[i].active <==> r[i].lang == lang)
  {
    seq(|ps|, i requires 0 <= i < |ps| => ps[i].(active := ps[i].lang == lang))
  }

  /** The body's direction: right-to-left exactly for Arabic. */
  function DirectionFor(lang: string): (d: Direction)
    ensures d == Rtl <==> lang == RightToLeftLanguage
  {
    if lang == RightToLeftLanguage then Rtl else Ltr
  }

  /** The body's alignment: right exactly for Arabic. */
  function AlignFor(lang: string): (a: Align)
    ensures a == Right <==> lang == RightToLeftLanguage
  {
    if lang == RightToLeftLanguage then Right else Left
  }

  /** switchLanguage(lang): clear every button, activate the first button
      whose `data-lang` is `lang` (a TypeError when there is none, leaving the
      buttons cleared and everything else as it was), show the matching
      panels only, set the direction and alignment, store the preference.
      Either way buttons and panels keep their number, order and languages,
      at most one button is active, and the preference changes only when the
      call returns. */
  function Switch(s: PageState, lang: string): (r: Outcome)
    ensures SameLangs(r.page.buttons, s.buttons) && SameLangs(r.page.panels, s.panels)
    ensures forall i, j ::
              0 <= i < |r.page.buttons| && 0 <= j < |r.page.buttons| &&
              r.page.buttons[i].active && r.page.buttons[j].active
              ==> i == j
    ensures r.Returned? ==> r.page.preference == Some(lang)
    ensures r.Threw? ==> r.page.preference == s.preference
  {
    var cleared := Deactivate(s.buttons);
    match FirstWithLang(cleared, lang)
    case None => Threw(s.(buttons := cleared))
    case Some(j) =>
      Returned(PageState(cleared[j := cleared[j].(active := true)],
                         ShowOnly(s.panels, lang),
                         DirectionFor(lang), AlignFor(lang), Some(lang)))
  }

  /** The language used at start-up: `getItem('preferred-language') || 'ru'`,
      so a missing or empty entry falls back to Russian. */
  function InitialLanguage(stored: Option<string>): (lang: string)
    ensures stored.Some? && stored.value != "" ==> lang == stored.value
    ensures stored.None? || stored.value == "" ==> lang == DefaultLanguage
    ensures lang != ""
  {
    match stored
    case Some(v) => if v != "" then v else DefaultLanguage
    case None => DefaultLanguage
  }

  /** Start-up: switch to the initial language. A start-up that returns
      stores the non-empty preference it read back unchanged, or "ru" when
      there was none; one that throws leaves the stored entry as it was. */
  function Startup(s: PageState): (r: Outcome)
    ensures r.Returned? && s.preference.Some? && s.preference.value != "" ==>
              r.page.preference == s.preference
    ensures r.Returned? && (s.preference.None? || s.preference.value == "") ==>
              r.page.preference == Some(DefaultLanguage)
    ensures r.Threw? ==> r.page.preference == s.preference
  {
    Switch(s, InitialLanguage(s.preference))
  }

  /** The language of `querySelector('.lang-btn.active')`: the first active
      button, or nothing (a null the click handlers would dereference). */
  function ActiveLanguage(ts: seq<Tagged>): (r: Option<string>)
    ensures r.None? <==> forall k :: 0 <= k < |ts| ==> !ts[k].active
    ensures r.Some? ==> exists i :: 0 <= i < |ts| && ts[i].active && ts[i].lang == r.value &&
                                    forall k :: 0 <= k < i ==> !ts[k].active
  {
    if ts == [] then None
    else if ts[0].active then Some(ts[0].lang)
    else
      var r := ActiveLanguage(ts[1..]);
      assert forall k :: 1 <= k < |ts| ==> ts[k] == ts[1..][k - 1];
      if r.Some? then
        var i :| 0 <= i < |ts[1..]| && ts[1..][i].active && ts[1..][i].lang == r.value &&
                 forall k :: 0 <= k < i ==> !ts[1..][k].active;
        assert ts[i + 1].active && ts[i + 1].lang == r.value &&
               forall k :: 0 <= k < i + 1 ==> !ts[k].active;
        r
      else r
  }

  // ---------------------------------------------------------------------
  // Properties of switchLanguage

  /** The call fails exactly when no button carries the language. */
  lemma SwitchFailsIff(s: PageState, lang: string)
    ensures Switch(s, lang).Threw? <==> !HasLang(s.buttons, lang)
  {
    var cleared := Deactivate(s.buttons);
    if HasLang(s.buttons, lang) {
      var i :| 0 <= i < |s.buttons| && s.buttons[i].lang == lang;
      assert cleared[i].lang == lang;
    }
  }

  /** After a successful call the buttons keep their number, order and
      languages, and exactly the first button with the language is active. */
  lemma SwitchButtons(s: PageState, lang: string)
    requires HasLang(s.buttons, lang)
    ensures Switch(s, lang).Returned?
    ensures var b := Switch(s, lang).page.buttons;
      SameLangs(b, s.buttons) &&
      forall i :: 0 <= i < |b| ==>
        (b[i].active <==> b[i].lang == lang && forall k :: 0 <= k < i ==> b[k].lang != lang)
  {
    SwitchFailsIff(s, lang);
  }

  /** With distinct button languages (the page's three buttons), a button is
      active exactly when its language is the chosen one, and one button is. */
  lemma SwitchActiveIffLang(s: PageState, lang: string)
    requires HasLang(s.buttons, lang) && DistinctLangs(s.buttons)
    ensures var b := Switch(s, lang).page.buttons;
      (forall i :: 0 <= i < |b| ==> (b[i].active <==> b[i].lang == lang)) &&
      (exists i :: 0 <= i < |b| && b[i].active) &&
      (forall i, j :: 0 <= i < |b| && 0 <= j < |b| && b[i].active && b[j].active ==> i == j)
  {
    SwitchButtons(s, lang);
    var b := Switch(s, lang).page.buttons;
    forall i | 0 <= i < |b| && b[i].lang == lang
      ensures forall k :: 0 <= k < i ==> b[k].lang != lang
    {
      forall k | 0 <= k < i ensures b[k].lang != lang {
        assert s.buttons[k].lang != s.buttons[i].lang;
      }
    }
    var w :| 0 <= w < |s.buttons| && s.buttons[w].lang == lang;
    assert b[w].lang == lang;
  }

  /** After a successful call the panels keep their number, order and
      languages, and a panel is active exactly when its language matches;
      the preference holds the language. */
  lemma SwitchPanelsAndPreference(s: PageState, lang: string)
    requires HasLang(s.buttons, lang)
    ensures var p := Switch(s, lang).page;
      SameLangs(p.panels, s.panels) &&
      (forall i :: 0 <= i < |p.panels| ==> (p.panels[i].active <==> p.panels[i].lang == lang)) &&
      p.preference == Some(lang)
  {
    SwitchFailsIff(s, lang);
  }

  /** After a successful call the text is right-to-left and right-aligned
      exactly for Arabic, left-to-right and left-aligned otherwise. */
  lemma SwitchDirection(s: PageState, lang: string)
    requires HasLang(s.buttons, lang)
    ensures var p := Switch(s, lang).page;
      (p.dir == Rtl <==> lang == "ar") && (p.dir == Ltr <==> lang != "ar") &&
      (p.align == Right <==> lang == "ar")
  {
    SwitchFailsIff(s, lang);
  }

  /** When no button carries the language, the call throws after clearing
      every button; panels, direction, alignment and preference are as before. */
  lemma SwitchThrows(s: PageState, lang: string)
    requires !HasLang(s.buttons, lang)
    ensures var o := Switch(s, lang);
      o.Threw? &&
      SameLangs(o.page.buttons, s.buttons) &&
      (forall i :: 0 <= i < |o.page.buttons| ==> !o.page.buttons[i].active) &&
      o.page.panels == s.panels && o.page.dir == s.dir && o.page.align == s.align &&
      o.page.preference == s.preference
  {
    SwitchFailsIff(s, lang);
  }

  /** Switching twice to the same language ends as switching once, whether
      the first call returned or threw. */
  lemma SwitchIdempotent(s: PageState, lang: string)
    ensures Switch(Switch(s, lang).page, lang) == Switch(s, lang)
  {
    var o := Switch(s, lang);
    var t := o.page;
    var cleared := Deactivate(s.buttons);
    var cleared2 := Deactivate(t.buttons);
    assert cleared2 == cleared by {
      assert |t.buttons| == |cleared|;
      assert forall i :: 0 <= i < |cleared| ==> cleared2[i] == cleared[i];
    }
    assert ShowOnly(ShowOnly(s.panels, lang), lang) == ShowOnly(s.panels, lang);
  }

  /** The click handler passes a button's own language, so the lookup of
      line 8 always finds a button (local storage is taken to accept the
      write of line 29). */
  lemma ClickNeverThrows(s: PageState, i: nat)
    requires i < |s.buttons|
    ensures Switch(s, s.buttons[i].lang).Returned?
  {
    SwitchFailsIff(s, s.buttons[i].lang);
  }

  /** What the order and social-link handlers later read as the current
      language: the one switched to, or nothing after a failed switch. */
  lemma ActiveLanguageAfterSwitch(s: PageState, lang: string)
    ensures var o := Switch(s, lang);
      (o.Returned? ==> ActiveLanguage(o.page.buttons) == Some(lang)) &&
      (o.Threw? ==> ActiveLanguage(o.page.buttons) == None)
  {
    SwitchFailsIff(s, lang);
    var o := Switch(s, lang);
    if o.Returned? {
      SwitchButtons(s, lang);
      var b := o.page.buttons;
      var r := ActiveLanguage(b);
      var j := FirstWithLang(Deactivate(s.buttons), lang).value;
      assert b[j].active;
      var i :| 0 <= i < |b| && b[i].active && b[i].lang == r.value &&
               forall k :: 0 <= k < i ==> !b[k].active;
      assert b[i].lang == lang;
    }
  }

  /** The stored preference reproduces the page on the next load: a freshly
      loaded page `f` with the same buttons and panels, whatever their classes
      and whatever the body's direction, starts up in exactly the state the
      switch to a non-empty language left. */
  lemma ReloadReproduces(s: PageState, lang: string, f: PageState)
    requires HasLang(s.buttons, lang) && lang != ""
    requires SameLangs(f.buttons, s.buttons) && SameLangs(f.panels, s.panels)
    requires f.preference == Some(lang)
    ensures Startup(f) == Switch(s, lang)
  {
    assert Deactivate(f.buttons) == Deactivate(s.buttons);
    assert ShowOnly(f.panels, lang) == ShowOnly(s.panels, lang);
  }

  /** Start-up with a stored language that has no button (an entry from an
      older page, or one written by hand) throws with every button inactive.
      The TypeError escapes the DOMContentLoaded listener, so nothing after
      it is set up: no countdown and no call-to-action or social handlers.
      The language buttons' handlers, attached before, still work. */
  lemma StartupWithUnknownPreference(s: PageState)
    requires s.preference.Some? && s.preference.value != "" && !HasLang(s.buttons, s.preference.value)
    ensures Startup(s).Threw?
    ensures ActiveLanguage(Startup(s).page.buttons).None?
    ensures Startup(s).page.preference == s.preference
  {
    SwitchThrows(s, s.preference.value);
  }

  /** The page after the user clicks the buttons numbered `clicks`, in turn. */
  function AfterClicks(s: PageState, clicks: seq<nat>): (r: PageState)
    requires forall k :: 0 <= k < |clicks| ==> clicks[k] < |s.buttons|
    ensures SameLangs(r.buttons, s.buttons)
    decreases |clicks|
  {
    if clicks == [] then s
    else AfterClicks(Switch(s, s.buttons[clicks[0]].lang).page, clicks[1..])
  }

  /** Once some button is active, it stays so whatever buttons are clicked. */
  lemma {:induction false} ClicksKeepActiveButton(s: PageState, clicks: seq<nat>)
    requires forall k :: 0 <= k < |clicks| ==> clicks[k] < |s.buttons|
    requires ActiveLanguage(s.buttons).Some?
    ensures ActiveLanguage(AfterClicks(s, clicks).buttons).Some?
    decreases |clicks|
  {
    if clicks != [] {
      var lang := s.buttons[clicks[0]].lang;
      ClickNeverThrows(s, clicks[0]);
      ActiveLanguageAfterSwitch(s, lang);
      ClicksKeepActiveButton(Switch(s, lang).page, clicks[1..]);
    }
  }

  /** The order and social-link handlers are attached only after a start-up
      that returned, and from then on some button is always active: their
      lookup of the active button never comes back empty. */
  lemma HandlersSeeActiveButton(s: PageState, clicks: seq<nat>)
    requires Startup(s).Returned?
    requires forall k :: 0 <= k < |clicks| ==> clicks[k] < |s.buttons|
    ensures ActiveLanguage(AfterClicks(Startup(s).page, clicks).buttons).Some?
  {
    ActiveLanguageAfterSwitch(s, InitialLanguage(s.preference));
    ClicksKeepActiveButton(Startup(s).page, clicks);
  }

  // ---------------------------------------------------------------------
  // The page as the script sees it: state updated in place

  class Page {
    var buttons: seq<Tagged>
    var panels: seq<Tagged>
    var dir: Direction
    var align: Align
    var preference: Option<string>

    function State(): PageState
      reads this
    {
      PageState(buttons, panels, dir, align, preference)
    }

    constructor (s: PageState)
      ensures State() == s
    {
      buttons, panels, dir, align, preference := s.buttons, s.panels, s.dir, s.align, s.preference;
    }

    /** switchLanguage: `ok` is false when the call throws. */
    method SwitchLanguage(lang: string) returns (ok: bool)
      modifies this
      ensures ok == Switch(old(State()), lang).Returned?
      ensures State() == Switch(old(State()), lang).page
    {
      // langButtons.forEach(btn => btn.classList.remove('active'))
      var i := 0;
      while i < |buttons|
        invariant 0 <= i <= |buttons| == |old(buttons)|
        invariant forall k :: 0 <= k < i ==> buttons[k] == old(buttons)[k].(active := false)
        invariant forall k :: i <= k < |buttons| ==> buttons[k] == old(buttons)[k]
        invariant panels == old(panels) && dir == old(dir) && align == old(align)
        invariant preference == old(preference)
      {
        buttons := buttons[i := buttons[i].(active := false)];
        i := i + 1;
      }
      assert buttons == Deactivate(old(buttons));

      // document.querySelector(`.lang-btn[data-lang="${lang}"]`)
      var j := 0;
      while j < |buttons| && buttons[j].lang != lang
        invariant 0 <= j <= |buttons|
        invariant forall k :: 0 <= k < j ==> buttons[k].lang != lang
      {
        j := j + 1;
      }
      if j == |buttons| {
        assert !HasLang(buttons, lang);
        ok := false;
        return;
      }
      buttons := buttons[j := buttons[j].(active := true)];
      ghost var switched := buttons;

      // document.querySelectorAll('.lang-content').forEach(...)
      var p := 0;
      while p < |panels|
        invariant 0 <= p <= |panels| == |old(panels)|
        invariant forall k :: 0 <= k < p ==> panels[k] == old(panels)[k].(active := old(panels)[k].lang == lang)
        invariant forall k :: p <= k < |panels| ==> panels[k] == old(panels)[k]
        invariant buttons == switched
      {
        panels := panels[p := panels[p].(active := panels[p].lang == lang)];
        p := p + 1;
      }
      assert panels == ShowOnly(old(panels), lang);

      if lang == RightToLeftLanguage {
        dir, align := Rtl, Right;
      } else {
        dir, align := Ltr, Left;
      }
      preference := Some(lang);
      ok := true;
    }

    /** Start-up: switch to the stored language, or Russian. */
    method Initialize() returns (ok: bool)
      modifies this
      ensures ok == Startup(old(State())).Returned?
      ensures State() == Startup(old(State())).page
    {
      ok := SwitchLanguage(InitialLanguage(preference));
    }

    /** `document.querySelector('.lang-btn.active')`'s language, read by the
        order and social-link handlers. */
    method CurrentLanguage() returns (lang: Option<string>)
      ensures lang == ActiveLanguage(buttons)
      ensures lang.None? <==> forall k :: 0 <= k < |buttons| ==> !buttons[k].active
    {
      var i := 0;
      while i < |buttons| && !buttons[i].active
        invariant 0 <= i <= |buttons|
        invariant ActiveLanguage(buttons) == ActiveLanguage(buttons[i..])
      {
        assert buttons[i..][1..] == buttons[i + 1..];
        i := i + 1;
      }
      lang := if i < |buttons| then Some(buttons[i].lang) else None;
    }
  }
}
