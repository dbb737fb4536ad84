/**
  The cookie banner of `src/components/contact/CookieConsent.tsx`: a small state machine
  over the banner's visibility, the settings panel and the recorded answer, persisted
  in `localStorage` and reported through `Analytics.TrackCookieConsent`.
*/
module CookieConsent {
  import opened Wrappers
  import BrowserStorage
  import Analytics

  /** What the component renders: nothing, the main banner, or the settings panel. */
  datatype View = MainBanner | SettingsPanel

  /** The answer a handler passes to `handleConsent` (`None` for `null`). */
  function ConsentString(choice: Option<Analytics.ConsentChoice>): Option<string> {
    match choice
    case None => None
    case Some(c) => Some(Analytics.ChoiceString(c))
  }

  /** `!savedConsent`: no stored answer, or an empty one, counts as none. */
  predicate NoAnswer(saved: Option<string>) {
    saved.None? || saved.value == ""
  }

  class Banner {
    var isVisible: bool
    var showSettings: bool
    /** The `consent` state: the stored string, taken as it is, or `None` for `null`. */
    var consent: Option<string>
    /** The analytics events sent so far. */
    var events: seq<Analytics.Event>
    /** How many times the answer started analytics. */
    var analyticsStarts: nat
    const storage: BrowserStorage.Storage
    const env: Analytics.Env

    constructor (storage: BrowserStorage.Storage, env: Analytics.Env)
      ensures this.storage == storage && this.env == env
      ensures !isVisible && !showSettings && consent == None
      ensures events == [] && analyticsStarts == 0
    {
      this.storage := storage;
      this.env := env;
      isVisible := false;
      showSettings := false;
      consent := None;
      events := [];
      analyticsStarts := 0;
    }

    /** The render guard: nothing while hidden, else the banner or the settings panel. */
    function Rendered(): (v: Option<View>)
      reads this
      ensures v.None? <==> !isVisible
      ensures v.Some? ==> (v.value == SettingsPanel <==> showSettings)
    {
      if !isVisible then None
      else if showSettings then Some(SettingsPanel)
      else Some(MainBanner)
    }

    /**
      The mount effect: with no stored answer the banner is shown (the display delay is
      not modelled); with one, `consent` takes it and the banner stays hidden.
    */
    method Mount()
      modifies this
      ensures var saved := storage.Get(Analytics.ConsentKey);
              (NoAnswer(saved) ==> isVisible && consent == old(consent)) &&
              (!NoAnswer(saved) ==> isVisible == old(isVisible) && consent == saved)
      ensures showSettings == old(showSettings)
      ensures events == old(events) && analyticsStarts == old(analyticsStarts)
    {
      var saved := storage.Get(Analytics.ConsentKey);
      if saved.None? || saved.value == "" {
        isVisible := true;
      } else {
        consent := saved;
      }
    }

    /**
      `handleConsent`: a real answer is stored with its date and reported; any call
      records the answer and hides the banner and the settings panel.
    */
    method HandleConsent(choice: Option<Analytics.ConsentChoice>, now: string)
      modifies this, storage
      ensures choice.Some? ==>
                storage.items == old(storage.items)[Analytics.ConsentKey := Analytics.ChoiceString(choice.value)]
                                                   [Analytics.ConsentDateKey := now]
      ensures choice.Some? ==>
                var fx := Analytics.TrackCookieConsent(env, choice.value);
                events == old(events) + fx.events &&
                analyticsStarts == old(analyticsStarts) + (if fx.started then 1 else 0)
      ensures choice.None? ==>
                storage.items == old(storage.items) && events == old(events) &&
                analyticsStarts == old(analyticsStarts)
      ensures consent == ConsentString(choice) && !isVisible && !showSettings
    {
      if choice.Some? {
        storage.SetItem(Analytics.ConsentKey, Analytics.ChoiceString(choice.value));
        storage.SetItem(Analytics.ConsentDateKey, now);
        var fx := Analytics.TrackCookieConsent(env, choice.value);
        events := events + fx.events;
        if fx.started {
          analyticsStarts := analyticsStarts + 1;
        }
      }
      consent := ConsentString(choice);
      isVisible := false;
      showSettings := false;
    }

    /** "Accept all". */
    method AcceptAll(now: string)
      modifies this, storage
      ensures storage.items == old(storage.items)[Analytics.ConsentKey := "all"][Analytics.ConsentDateKey := now]
      ensures consent == Some("all") && !isVisible && !showSettings
      ensures events == old(events) + Analytics.TrackCookieConsent(env, Analytics.All).events
      ensures analyticsStarts == old(analyticsStarts) + (if env.inBrowser then 1 else 0)
    {
      HandleConsent(Some(Analytics.All), now);
    }

    /** "Only necessary". */
    method AcceptNecessary(now: string)
      modifies this, storage
      ensures storage.items == old(storage.items)[Analytics.ConsentKey := "necessary"][Analytics.ConsentDateKey := now]
      ensures consent == Some("necessary") && !isVisible && !showSettings
      ensures events == old(events) + Analytics.TrackCookieConsent(env, Analytics.Necessary).events
      ensures analyticsStarts == old(analyticsStarts)
    {
      HandleConsent(Some(Analytics.Necessary), now);
    }

    /** "Decline all". */
    method Decline(now: string)
      modifies this, storage
      ensures storage.items == old(storage.items)[Analytics.ConsentKey := "declined"][Analytics.ConsentDateKey := now]
      ensures consent == Some("declined") && !isVisible && !showSettings
      ensures events == old(events) + Analytics.TrackCookieConsent(env, Analytics.Declined).events
      ensures analyticsStarts == old(analyticsStarts)
    {
      HandleConsent(Some(Analytics.Declined), now);
    }

    /** Opens the settings panel; nothing else changes. */
    method ShowSettings()
      modifies this
      ensures showSettings
      ensures isVisible == old(isVisible) && consent == old(consent)
      ensures events == old(events) && analyticsStarts == old(analyticsStarts)
    {
      showSettings := true;
    }

    /** Closes the settings panel; nothing else changes. */
    method CloseSettings()
      modifies this
      ensures !showSettings
      ensures isVisible == old(isVisible) && consent == old(consent)
      ensures events == old(events) && analyticsStarts == old(analyticsStarts)
    {
      showSettings := false;
    }
  }

  /**
    A first visit with no stored answer shows the banner; answering hides it and
    renders nothing, and analytics count as enabled afterwards exactly for `all`.
  */
  method FirstVisitAnswer(env: Analytics.Env, choice: Analytics.ConsentChoice, now: string)
    returns (shownBefore: Option<View>, shownAfter: Option<View>, enabled: bool)
    ensures shownBefore == Some(MainBanner)
    ensures shownAfter == None
    ensures enabled <==> choice == Analytics.All && env.inBrowser
  {
    var storage := new BrowserStorage.Storage(map[]);
    var banner := new Banner(storage, env);
    banner.Mount();
    shownBefore := banner.Rendered();
    banner.HandleConsent(Some(choice), now);
    shownAfter := banner.Rendered();
    enabled := Analytics.IsAnalyticsEnabled(env.inBrowser, storage.items);
    Analytics.ConsentGateAgrees(env, map[Analytics.ConsentKey := Analytics.ChoiceString(choice)], choice);
  }

  /** Once answered, the next page load keeps the banner hidden and restores the answer. */
  method NoRepromptAfterAnswer(items: map<string, string>, env: Analytics.Env,
                               choice: Analytics.ConsentChoice, now: string)
    returns (shown: Option<View>, restored: Option<string>)
    ensures shown == None
    ensures restored == Some(Analytics.ChoiceString(choice))
  {
    var storage := new BrowserStorage.Storage(items);
    var first := new Banner(storage, env);
    first.HandleConsent(Some(choice), now);
    var second := new Banner(storage, env);
    second.Mount();
    shown := second.Rendered();
    restored := second.consent;
  }

  /** Giving the same answer twice leaves the stored answer as it was; only the date moves. */
  method RepeatedAnswerKeepsValue(items: map<string, string>, env: Analytics.Env,
                                  choice: Analytics.ConsentChoice, now1: string, now2: string)
    returns (stored1: Option<string>, stored2: Option<string>, date2: Option<string>)
    ensures stored1 == stored2 == Some(Analytics.ChoiceString(choice))
    ensures date2 == Some(now2)
  {
    var storage := new BrowserStorage.Storage(items);
    var banner := new Banner(storage, env);
    banner.HandleConsent(Some(choice), now1);
    stored1 := storage.Get(Analytics.ConsentKey);
    banner.HandleConsent(Some(choice), now2);
    stored2 := storage.Get(Analytics.ConsentKey);
    date2 := storage.Get(Analytics.ConsentDateKey);
  }
}
