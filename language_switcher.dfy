/**
  The locale buttons of `src/components/ui/LanguageSwitcher.tsx`: one button per locale,
  pressed for the current locale and disabled while translations load, and the compact
  variant that toggles between the two locales. Both act on the `I18n.Provider`.
*/
module LanguageSwitcher {
  import I18n

  /** The locale the compact button switches to: `en` from `pl`, `pl` from anything else. */
  function NextLocale(locale: string): (next: string)
    ensures I18n.IsSupported(next)
    ensures I18n.IsSupported(locale) ==> next != locale
  {
    if locale == "pl" then "en" else "pl"
  }

  /** On the two supported locales the toggle is an involution. */
  lemma NextLocaleInvolution(locale: string)
    requires I18n.IsSupported(locale)
    ensures NextLocale(NextLocale(locale)) == locale
  {
  }

  /** One rendered locale button: its locale, `aria-pressed`, and `disabled`. */
  datatype Button = Button(locale: string, pressed: bool, disabled: bool)

  /** The buttons, one per supported locale, in order. */
  function Buttons(current: string, isLoading: bool): (bs: seq<Button>)
    ensures |bs| == |I18n.Locales|
    ensures forall k | 0 <= k < |bs| :: bs[k].locale == I18n.Locales[k]
    ensures forall k | 0 <= k < |bs| :: bs[k].disabled == isLoading
  {
    seq(|I18n.Locales|, k requires 0 <= k < |I18n.Locales| =>
      Button(I18n.Locales[k], current == I18n.Locales[k], isLoading))
  }

  /** For a supported current locale exactly one button is pressed: the current locale's. */
  lemma ExactlyOnePressed(current: string, isLoading: bool)
    requires I18n.IsSupported(current)
    ensures exists k | 0 <= k < |Buttons(current, isLoading)| :: Buttons(current, isLoading)[k].pressed
    ensures forall k | 0 <= k < |Buttons(current, isLoading)| ::
              Buttons(current, isLoading)[k].pressed <==> Buttons(current, isLoading)[k].locale == current
    ensures forall j, k | 0 <= j < k < |Buttons(current, isLoading)| ::
              !(Buttons(current, isLoading)[j].pressed && Buttons(current, isLoading)[k].pressed)
  {
    var bs := Buttons(current, isLoading);
    var k :| 0 <= k < |I18n.Locales| && I18n.Locales[k] == current;
    assert bs[k].pressed;
  }

  /** `handleLocaleChange`: the current locale is left alone; another one is set on the provider. */
  method HandleLocaleChange(p: I18n.Provider, newLocale: string)
    modifies p, p.storage
    ensures newLocale == old(p.locale) ==> p.locale == old(p.locale) && p.storage.items == old(p.storage.items)
    ensures newLocale != old(p.locale) && I18n.IsSupported(newLocale) ==>
              p.locale == newLocale && p.storage.items == old(p.storage.items)[I18n.LocaleKey := newLocale]
    ensures p.translations == old(p.translations) && p.isLoading == old(p.isLoading)
  {
    if newLocale != p.locale {
      p.SetLocale(newLocale);
    }
  }

  /** A click on a locale button: a disabled button, while loading, does nothing. */
  method ClickLocaleButton(p: I18n.Provider, b: Button)
    requires b in Buttons(p.locale, p.isLoading)
    modifies p, p.storage
    ensures b.disabled ==> p.locale == old(p.locale) && p.storage.items == old(p.storage.items)
    ensures !b.disabled ==> p.locale == b.locale
    ensures p.isLoading == old(p.isLoading)
  {
    if !b.disabled {
      HandleLocaleChange(p, b.locale);
    }
  }

  /** `toggleLocale`: sets the other locale on the provider. */
  method ToggleLocale(p: I18n.Provider)
    modifies p, p.storage
    ensures p.locale == NextLocale(old(p.locale))
    ensures p.storage.items == old(p.storage.items)[I18n.LocaleKey := p.locale]
    ensures p.translations == old(p.translations) && p.isLoading == old(p.isLoading)
  {
    var newLocale := if p.locale == "pl" then "en" else "pl";
    p.SetLocale(newLocale);
  }

  /** A click on the compact button, which is disabled while loading. */
  method ClickToggleButton(p: I18n.Provider)
    modifies p, p.storage
    ensures old(p.isLoading) ==> p.locale == old(p.locale) && p.storage.items == old(p.storage.items)
    ensures !old(p.isLoading) ==> p.locale == NextLocale(old(p.locale))
    ensures p.isLoading == old(p.isLoading)
  {
    if !p.isLoading {
      ToggleLocale(p);
    }
  }

  /** Toggling twice from a supported locale comes back to it, and it is what is saved. */
  method ToggleTwice(p: I18n.Provider) returns (before: string, after: string)
    requires I18n.IsSupported(p.locale)
    modifies p, p.storage
    ensures after == before
    ensures I18n.LocaleKey in p.storage.items && p.storage.items[I18n.LocaleKey] == before
  {
    before := p.locale;
    ToggleLocale(p);
    ToggleLocale(p);
    NextLocaleInvolution(before);
    after := p.locale;
  }
}
