/**
  The analytics glue of `src/lib/analytics.ts`: the guarded `trackEvent`, the GDPR gate
  that starts analytics, the cookie-consent dispatch, the consent check read back from
  `localStorage`, and the scroll tracker that reports each page section at most once.
*/
module Analytics {
  import opened Wrappers

  /** The three answers the cookie banner can record. */
  datatype ConsentChoice = All | Necessary | Declined

  /** The `localStorage` key holding the recorded answer. */
  const ConsentKey: string := "cookie_consent"
  /** The `localStorage` key holding the moment of the answer. */
  const ConsentDateKey: string := "cookie_consent_date"

  /** The string stored for an answer. */
  function ChoiceString(c: ConsentChoice): string {
    match c
    case All => "all"
    case Necessary => "necessary"
    case Declined => "declined"
  }

  /** The answer a stored string stands for, if any. */
  function ParseChoice(s: string): (c: Option<ConsentChoice>)
    ensures c.Some? ==> ChoiceString(c.value) == s
  {
    if s == "all" then Some(All)
    else if s == "necessary" then Some(Necessary)
    else if s == "declined" then Some(Declined)
    else None
  }

  /** Storing an answer and reading it back gives the same answer. */
  lemma ParseChoiceString(c: ConsentChoice)
    ensures ParseChoice(ChoiceString(c)) == Some(c)
  {
  }

  /** Different answers are stored as different strings. */
  lemma ChoiceStringInjective(c: ConsentChoice, d: ConsentChoice)
    ensures ChoiceString(c) == ChoiceString(d) <==> c == d
  {
    ParseChoiceString(c);
    ParseChoiceString(d);
  }

  // ---------------------------------------------------------------------------
  // events

  /** Where the code runs: in a browser or not, and with the Plausible script loaded or not. */
  datatype Env = Env(inBrowser: bool, hasPlausible: bool)

  /** One call of `window.plausible`: the event name and its optional properties. */
  datatype Event = Event(name: string, props: Option<map<string, string>>)

  /** `trackEvent`: the events sent, which is none at all unless Plausible is present in a browser. */
  function TrackEvent(env: Env, name: string, props: Option<map<string, string>>): (sent: seq<Event>)
    ensures |sent| <= 1
    ensures sent != [] <==> env.inBrowser && env.hasPlausible
    ensures forall e | e in sent :: e.name == name && e.props == props
  {
    if env.inBrowser && env.hasPlausible then [Event(name, props)] else []
  }

  /** `initAnalytics`: whether the performance, error and scroll trackers get installed. */
  function InitAnalytics(env: Env): bool {
    env.inBrowser
  }

  /** `initGDPRAnalytics`: analytics start only with consent, and only in a browser. */
  function InitGDPRAnalytics(consent: bool, env: Env): (started: bool)
    ensures started ==> consent
    ensures started <==> consent && InitAnalytics(env)
  {
    consent && InitAnalytics(env)
  }

  /** What `trackCookieConsent` does: the events it sends and whether it starts analytics. */
  datatype ConsentEffects = ConsentEffects(events: seq<Event>, started: bool)

  /** The properties of a `Cookie Accept` event. */
  function AcceptProps(c: ConsentChoice): map<string, string> {
    map["type" := ChoiceString(c)]
  }

  /**
    `trackCookieConsent`: `all` and `necessary` send `Cookie Accept` with their type,
    `declined` sends `Cookie Decline` without properties; only `all` starts analytics.
  */
  function TrackCookieConsent(env: Env, c: ConsentChoice): (fx: ConsentEffects)
    ensures fx.started <==> c == All && env.inBrowser
    ensures |fx.events| <= 1
    ensures fx.events != [] <==> env.inBrowser && env.hasPlausible
    ensures forall e | e in fx.events :: (e.name == "Cookie Decline" <==> c == Declined)
    ensures forall e | e in fx.events ::
              (c == Declined ==> e.props.None?) &&
              (c != Declined ==> e.name == "Cookie Accept" && e.props == Some(AcceptProps(c)))
  {
    match c
    case All => ConsentEffects(TrackEvent(env, "Cookie Accept", Some(AcceptProps(All))), InitGDPRAnalytics(true, env))
    case Necessary => ConsentEffects(TrackEvent(env, "Cookie Accept", Some(AcceptProps(Necessary))), InitGDPRAnalytics(false, env))
    case Declined => ConsentEffects(TrackEvent(env, "Cookie Decline", None), InitGDPRAnalytics(false, env))
  }

  /** `isAnalyticsEnabled`: a browser whose stored answer is exactly `all`. */
  function IsAnalyticsEnabled(inBrowser: bool, items: map<string, string>): bool {
    inBrowser && ConsentKey in items && items[ConsentKey] == "all"
  }

  /**
    Storing an answer and reporting it agree: analytics count as enabled afterwards
    exactly when `trackCookieConsent` started them.
  */
  lemma ConsentGateAgrees(env: Env, items: map<string, string>, c: ConsentChoice)
    ensures IsAnalyticsEnabled(env.inBrowser, items[ConsentKey := ChoiceString(c)]) ==
            TrackCookieConsent(env, c).started
  {
    ChoiceStringInjective(c, All);
  }

  /** Analytics are enabled only by the stored answer `all`, never by another stored answer. */
  lemma EnabledOnlyByAll(inBrowser: bool, items: map<string, string>)
    requires IsAnalyticsEnabled(inBrowser, items)
    ensures inBrowser && ParseChoice(items[ConsentKey]) == Some(All)
  {
  }

  // ---------------------------------------------------------------------------
  // scroll tracking

  /** The section ids the scroll tracker watches. */
  const Sections: seq<string> := ["hero", "why", "offer", "process", "portfolio", "testimonials", "contact"]

  /**
    One intersection-observer entry: the target's id, whether it intersects, and
    whether more than half of it is visible (the ratio itself is not modelled).
  */
  datatype Entry = Entry(targetId: string, isIntersecting: bool, mostlyVisible: bool)

  /** An entry that may report its section: intersecting, mostly visible, and a watched id. */
  predicate Qualifies(e: Entry) {
    e.isIntersecting && e.mostlyVisible && e.targetId in Sections
  }

  /** The sections a batch of entries reports, in order, given the sections already tracked. */
  function NewlyReported(tracked: set<string>, entries: seq<Entry>): seq<string>
    decreases |entries|
  {
    if entries == [] then []
    else
      var e := entries[0];
      if Qualifies(e) && e.targetId !in tracked then
        [e.targetId] + NewlyReported(tracked + {e.targetId}, entries[1..])
      else
        NewlyReported(tracked, entries[1..])
  }

  predicate NoDuplicates(s: seq<string>) {
    forall i, j | 0 <= i < j < |s| :: s[i] != s[j]
  }

  function Elems(s: seq<string>): set<string> {
    set x | x in s
  }

  /**
    A section is reported by a batch exactly when it was not tracked yet and some entry
    of the batch qualifies for it; nothing is reported twice.
  */
  lemma {:induction false} NewlyReportedSpec(tracked: set<string>, entries: seq<Entry>)
    ensures NoDuplicates(NewlyReported(tracked, entries))
    ensures forall x :: x in NewlyReported(tracked, entries) <==>
              x !in tracked && exists k | 0 <= k < |entries| :: Qualifies(entries[k]) && entries[k].targetId == x
    decreases |entries|
  {
    if entries != [] {
      var e := entries[0];
      var tail := entries[1..];
      if Qualifies(e) && e.targetId !in tracked {
        NewlyReportedSpec(tracked + {e.targetId}, tail);
        var r := NewlyReported(tracked + {e.targetId}, tail);
        assert NewlyReported(tracked, entries) == [e.targetId] + r;
        forall x
          ensures x in NewlyReported(tracked, entries) <==>
                  x !in tracked && exists k | 0 <= k < |entries| :: Qualifies(entries[k]) && entries[k].targetId == x
        {
          if x !in tracked && x != e.targetId && exists k | 0 <= k < |entries| :: Qualifies(entries[k]) && entries[k].targetId == x {
            var k :| 0 <= k < |entries| && Qualifies(entries[k]) && entries[k].targetId == x;
            assert k > 0 && tail[k - 1] == entries[k];
          }
          if x in r {
            var k :| 0 <= k < |tail| && Qualifies(tail[k]) && tail[k].targetId == x;
            assert entries[k + 1] == tail[k];
          }
          if x == e.targetId {
            assert Qualifies(entries[0]) && entries[0].targetId == x;
          }
        }
      } else {
        NewlyReportedSpec(tracked, tail);
        forall x
          ensures x in NewlyReported(tracked, entries) <==>
                  x !in tracked && exists k | 0 <= k < |entries| :: Qualifies(entries[k]) && entries[k].targetId == x
        {
          if x !in tracked && exists k | 0 <= k < |entries| :: Qualifies(entries[k]) && entries[k].targetId == x {
            var k :| 0 <= k < |entries| && Qualifies(entries[k]) && entries[k].targetId == x;
            assert k > 0 && tail[k - 1] == entries[k];
          }
          if x in NewlyReported(tracked, tail) {
            var k :| 0 <= k < |tail| && Qualifies(tail[k]) && tail[k].targetId == x;
            assert entries[k + 1] == tail[k];
          }
        }
      }
    }
  }

  /** `trackScrollEvents`' observer: the set of sections already reported and the reports sent. */
  class ScrollTracker {
    var tracked: set<string>
    /** The sections passed to `analytics.scrollToSection`, in order. */
    var reported: seq<string>

    /** Each watched section reported at most once, and `tracked` remembers exactly those. */
    ghost predicate Valid()
      reads this
    {
      NoDuplicates(reported) && (forall x | x in reported :: x in Sections) && tracked == Elems(reported)
    }

    constructor ()
      ensures Valid() && reported == []
    {
      tracked := {};
      reported := [];
    }

    /** The observer callback: reports every qualifying entry whose section is not tracked yet. */
    method Observe(entries: seq<Entry>)
      requires Valid()
      modifies this
      ensures Valid()
      ensures reported == old(reported) + NewlyReported(old(tracked), entries)
    {
      for i := 0 to |entries|
        invariant Valid()
        invariant reported + NewlyReported(tracked, entries[i..]) == old(reported) + NewlyReported(old(tracked), entries)
      {
        var e := entries[i];
        assert entries[i..][0] == e && entries[i..][1..] == entries[i + 1..];
        if e.isIntersecting && e.mostlyVisible {
          if e.targetId in Sections && e.targetId !in tracked {
            ghost var prev := reported;
            reported := reported + [e.targetId];
            tracked := tracked + {e.targetId};
            assert Elems(reported) == Elems(prev) + {e.targetId};
          }
        }
      }
    }
  }
}
