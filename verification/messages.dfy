/** The localized texts the page shows: the order acknowledgement, the
    order confirmation, and the social-link redirect notice with its
    platform-name table. A language other than Russian or English gets the
    Arabic text. */
module Messages {

  const OrderThanksRu: string := "Спасибо за ваш интерес! Вскоре вы будете перенаправлены на страницу заказа."
  const OrderThanksEn: string := "Thank you for your interest! You will be redirected to the order page shortly."
  const OrderThanksAr: string := "شكراً لاهتمامك! سيتم توجيهك إلى صفحة الطلب قريباً."

  const OrderPlacedRu: string := "Заказ успешно оформлен! Мы свяжемся с вами в ближайшее время."
  const OrderPlacedEn: string := "Order successfully placed! We will contact you shortly."
  const OrderPlacedAr: string := "تم تقديم الطلب بنجاح! سنتواصل معك قريباً."

  /** The languages that have their own text; every other value falls to Arabic. */
  predicate IsRussian(lang: string) { lang == "ru" }
  predicate IsEnglish(lang: string) { lang == "en" }

  /** The acknowledgement shown when a call-to-action button is clicked. */
  function OrderThanks(lang: string): (m: string)
    ensures m == OrderThanksRu <==> IsRussian(lang)
    ensures m == OrderThanksEn <==> IsEnglish(lang)
    ensures m == OrderThanksAr <==> !IsRussian(lang) && !IsEnglish(lang)
  {
    if lang == "ru" then OrderThanksRu
    else if lang == "en" then OrderThanksEn
    else OrderThanksAr
  }

  /** The confirmation shown when the simulated order completes. */
  function OrderPlaced(lang: string): (m: string)
    ensures m == OrderPlacedRu <==> IsRussian(lang)
    ensures m == OrderPlacedEn <==> IsEnglish(lang)
    ensures m == OrderPlacedAr <==> !IsRussian(lang) && !IsEnglish(lang)
  {
    if lang == "ru" then OrderPlacedRu
    else if lang == "en" then OrderPlacedEn
    else OrderPlacedAr
  }

  // ---------------------------------------------------------------------
  // getPlatformName

  /** The platform-name table, keyed by platform and then by language. */
  const Platforms: map<string, map<string, string>> := map[
    "whatsapp" := map["ru" := "WhatsApp", "en" := "WhatsApp", "ar" := "واتساب"],
    "tiktok" := map["ru" := "TikTok", "en" := "TikTok", "ar" := "تيك توك"],
    "instagram" := map["ru" := "Instagram", "en" := "Instagram", "ar" := "انستغرام"]
  ]

  const KnownPlatforms: set<string> := {"whatsapp", "tiktok", "instagram"}
  const TableLanguages: set<string> := {"ru", "en", "ar"}

  /** `platforms[platform]?.[lang] || platform`: the table entry when there
      is a non-empty one, otherwise the platform key itself. */
  function PlatformName(platform: string, lang: string): (name: string)
    ensures platform in KnownPlatforms && lang in TableLanguages ==>
              platform in Platforms && lang in Platforms[platform] &&
              name == Platforms[platform][lang] && name != ""
    ensures !(platform in KnownPlatforms && lang in TableLanguages) ==> name == platform
  {
    if platform in Platforms && lang in Platforms[platform] && Platforms[platform][lang] != ""
    then Platforms[platform][lang]
    else platform
  }

  /** The fallback is visible: the name equals the key exactly when the
      lookup missed, since no table entry is spelled like its key. */
  lemma PlatformNameFallbackIff(platform: string, lang: string)
    ensures PlatformName(platform, lang) == platform <==>
            !(platform in KnownPlatforms && lang in TableLanguages)
  {
    if platform in KnownPlatforms && lang in TableLanguages {
      var name := PlatformName(platform, lang);
      assert name[0] != platform[0];
    }
  }

  /** The language the redirect notice is written in: Russian or English as
      asked, Arabic for every other language. */
  function NoticeLanguage(lang: string): string
  {
    if IsRussian(lang) || IsEnglish(lang) then lang else "ar"
  }

  /** `part` appears in `whole` starting at position k. */
  predicate OccursAt(part: string, whole: string, k: nat)
  {
    k + |part| <= |whole| && whole[k..k + |part|] == part
  }

  // The sentences of the redirect notice around the platform's name.
  const RedirectRu: string := "Вы будете перенаправлены на нашу страницу в "
  const RedirectEnHead: string := "You will be redirected to our "
  const RedirectEnTail: string := " page"
  const RedirectAr: string := "سيتم توجيهك إلى صفحتنا على "

  /** The notice shown when a social icon is clicked, in the current language:
      the Russian sentence exactly for "ru", the English one exactly for "en",
      the Arabic one for every other language, each around the platform's
      name in that language. */
  function RedirectNotice(platform: string, lang: string): (m: string)
    ensures var name := PlatformName(platform, NoticeLanguage(lang));
      (m == RedirectRu + name <==> IsRussian(lang)) &&
      (m == RedirectEnHead + name + RedirectEnTail <==> IsEnglish(lang)) &&
      (m == RedirectAr + name <==> !IsRussian(lang) && !IsEnglish(lang))
    ensures exists k :: 0 <= k <= |m| && OccursAt(PlatformName(platform, NoticeLanguage(lang)), m, k)
  {
    var name := PlatformName(platform, NoticeLanguage(lang));
    var ru, en, ar := RedirectRu + name, RedirectEnHead + name + RedirectEnTail, RedirectAr + name;
    // The three sentences already differ in their first character.
    assert ru[0] == RedirectRu[0] && en[0] == RedirectEnHead[0] && ar[0] == RedirectAr[0];
    assert ru[0] != en[0] && ru[0] != ar[0] && en[0] != ar[0];
    var m := if lang == "ru" then ru else if lang == "en" then en else ar;
    var prefix := if lang == "ru" then RedirectRu else if lang == "en" then RedirectEnHead else RedirectAr;
    assert OccursAt(name, m, |prefix|);
    m
  }

  /** For a known platform the notice never names it by its bare key, in
      whatever language it is written. */
  lemma RedirectNamesPlatform(platform: string, lang: string)
    requires platform in KnownPlatforms
    ensures PlatformName(platform, NoticeLanguage(lang)) != platform
  {
    PlatformNameFallbackIff(platform, NoticeLanguage(lang));
  }
}
