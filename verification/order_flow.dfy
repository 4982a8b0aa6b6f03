/** The click handlers that join the pieces: a call-to-action click reads the
    active language button, shows the localized acknowledgement and puts every
    call-to-action button into its loading state; the simulated order later
    shows the localized confirmation; a social icon shows a redirect notice.
    When these handlers fire is not modelled, only what each one changes. */
module OrderFlow {
  import opened LanguageSwitch
  import Messages
  import opened Notifications

  /** A `.cta-button`: its text and its `disabled` property. */
  datatype Cta = Cta(text: string, disabled: bool)

  const LoadingText: string := "Loading..."

  /** Every call-to-action button relabelled and disabled. */
  function Loading(bs: seq<Cta>): (r: seq<Cta>)
    ensures |r| == |bs| && forall i :: 0 <= i < |r| ==> r[i] == Cta(LoadingText, true)
  {
    seq(|bs|, i requires 0 <= i < |bs| => Cta(LoadingText, true))
  }

  /** The texts each button's timer closure keeps to restore later. */
  function Texts(bs: seq<Cta>): (r: seq<string>)
    ensures |r| == |bs| && forall i :: 0 <= i < |r| ==> r[i] == bs[i].text
  {
    seq(|bs|, i requires 0 <= i < |bs| => bs[i].text)
  }

  /** Button i's restore timer: its saved text back, enabled again; no
      other button changes. */
  function Restore(bs: seq<Cta>, i: nat, text: string): (r: seq<Cta>)
    requires i < |bs|
    ensures |r| == |bs| && r[i] == Cta(text, false)
    ensures forall k :: 0 <= k < |bs| && k != i ==> r[k] == bs[k]
  {
    bs[i := Cta(text, false)]
  }

  /** Restoring buttons 0..n-1 in turn, each with its own saved text: those
      are enabled with their saved text, the others are untouched. */
  function RestoreFirst(bs: seq<Cta>, saved: seq<string>, n: nat): (r: seq<Cta>)
    requires n <= |bs| == |saved|
    ensures |r| == |bs|
    ensures forall i :: 0 <= i < n ==> r[i] == Cta(saved[i], false)
    ensures forall i :: n <= i < |bs| ==> r[i] == bs[i]
  {
    if n == 0 then bs else Restore(RestoreFirst(bs, saved, n - 1), n - 1, saved[n - 1])
  }

  /** Round trip of the loading state: once every restore timer has fired,
      each button has its original text back and is enabled. */
  lemma {:induction false} RestoreAllRoundTrip(bs: seq<Cta>)
    ensures var r := RestoreFirst(Loading(bs), Texts(bs), |bs|);
      |r| == |bs| && forall i :: 0 <= i < |bs| ==> r[i] == Cta(bs[i].text, false)
  {
  }

  /** The call-to-action buttons, updated in place. */
  class CtaBar {
    var buttons: seq<Cta>

    constructor (bs: seq<Cta>)
      ensures buttons == bs
    {
      buttons := bs;
    }

    /** The loop of simulateOrderProcess: remember each text, relabel and
        disable each button. Returns the remembered texts. */
    method StartLoading() returns (saved: seq<string>)
      modifies this
      ensures saved == Texts(old(buttons))
      ensures buttons == Loading(old(buttons))
    {
      saved := [];
      var i := 0;
      while i < |buttons|
        invariant 0 <= i <= |buttons| == |old(buttons)|
        invariant saved == Texts(old(buttons)[..i])
        invariant forall k :: 0 <= k < i ==> buttons[k] == Cta(LoadingText, true)
        invariant forall k :: i <= k < |buttons| ==> buttons[k] == old(buttons)[k]
      {
        assert old(buttons)[..i + 1] == old(buttons)[..i] + [buttons[i]];
        saved := saved + [buttons[i].text];
        buttons := buttons[i := Cta(LoadingText, true)];
        i := i + 1;
      }
      assert old(buttons)[..i] == old(buttons);
    }

    /** One button's two-second timer. */
    method RestoreButton(i: nat, text: string)
      requires i < |buttons|
      modifies this
      ensures buttons == Restore(old(buttons), i, text)
    {
      buttons := buttons[i := Cta(text, false)];
    }
  }

  /** A call-to-action click. `ok` is false when no language button is active
      (the handler would then throw before showing anything). In the script
      that branch is never taken: see `HandlersSeeActiveButton`. */
  method OrderClick(page: Page, area: NotificationArea, bar: CtaBar)
      returns (ok: bool, saved: seq<string>)
    requires area.Valid()
    modifies area, bar
    ensures area.Valid()
    ensures ok == ActiveLanguage(page.buttons).Some?
    ensures ok ==> area.shown == AfterShow(old(area.shown),
                     Notification(old(area.nextId), Messages.OrderThanks(ActiveLanguage(page.buttons).value)))
    ensures ok ==> saved == Texts(old(bar.buttons)) && bar.buttons == Loading(old(bar.buttons))
    ensures ok ==> area.nextId == old(area.nextId) + 1
    ensures !ok ==> area.shown == old(area.shown) && area.nextId == old(area.nextId) &&
                    bar.buttons == old(bar.buttons)
  {
    saved := [];
    var lang := page.CurrentLanguage();
    if lang.None? {
      ok := false;
      return;
    }
    var _ := area.Show(Messages.OrderThanks(lang.value));
    saved := bar.StartLoading();
    ok := true;
  }

  /** The simulated order completing: the confirmation in the language active
      at that moment (`ok` is false only when no button is active, which
      cannot happen once the handlers are attached). */
  method OrderCompleted(page: Page, area: NotificationArea) returns (ok: bool)
    requires area.Valid()
    modifies area
    ensures area.Valid()
    ensures ok == ActiveLanguage(page.buttons).Some?
    ensures ok ==> area.shown == AfterShow(old(area.shown),
                     Notification(old(area.nextId), Messages.OrderPlaced(ActiveLanguage(page.buttons).value)))
    ensures ok ==> area.nextId == old(area.nextId) + 1
    ensures !ok ==> area.shown == old(area.shown) && area.nextId == old(area.nextId)
  {
    var lang := page.CurrentLanguage();
    if lang.None? {
      ok := false;
      return;
    }
    var _ := area.Show(Messages.OrderPlaced(lang.value));
    ok := true;
  }

  /** A social icon click for `platform` (the icon's parsed class name); `ok`
      is false only when no button is active, which cannot happen once the
      handlers are attached. */
  method SocialClick(page: Page, area: NotificationArea, platform: string) returns (ok: bool)
    requires area.Valid()
    modifies area
    ensures area.Valid()
    ensures ok == ActiveLanguage(page.buttons).Some?
    ensures ok ==> area.shown == AfterShow(old(area.shown),
                     Notification(old(area.nextId), Messages.RedirectNotice(platform, ActiveLanguage(page.buttons).value)))
    ensures ok ==> area.nextId == old(area.nextId) + 1
    ensures !ok ==> area.shown == old(area.shown) && area.nextId == old(area.nextId)
  {
    var lang := page.CurrentLanguage();
    if lang.None? {
      ok := false;
      return;
    }
    var _ := area.Show(Messages.RedirectNotice(platform, lang.value));
    ok := true;
  }
}
