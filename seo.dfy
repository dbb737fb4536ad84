/**
  The page metadata of `src/lib/seo.ts`: `generatePageMetadata`, which fills the page's
  title, description, image and robots flags from optional arguments and the site's
  defaults, and `breadcrumbJsonLd`, which numbers a trail of links for schema.org.
*/
module Seo {
  import opened Wrappers

  /** The site's name, appended to page titles. */
  const SiteName: string := "TomSoft"
  /** The title of a page without its own. */
  const SiteTitle: string := "TomSoft \U{2013} Nowoczesne strony internetowe, sklepy i systemy webowe"
  /** The description of a page without its own. */
  const SiteDescription: string :=
    "Profesjonalne strony internetowe, sklepy eCommerce i systemy dedykowane. React + Next.js, UX/UI Design, " +
    "optymalizacja SEO i b\U{0142}yskawiczne dzia\U{0142}anie. TomSoft \U{2013} tworzymy nowoczesny internet."
  /** The site's address, without a trailing slash. */
  const SiteUrl: string := "https://tomaszchromy.com"
  /** The share image of a page without its own. */
  const SiteOgImage: string := "/og-image.jpg"

  /** A JavaScript string argument counts as given when present and non-empty. */
  predicate Given(s: Option<string>) {
    s.Some? && s.value != []
  }

  /** The share image as OpenGraph describes it. */
  datatype OgImage = OgImage(url: string, width: nat, height: nat, alt: string)
  datatype OpenGraph = OpenGraph(url: string, title: string, description: string, siteName: string, images: seq<OgImage>)
  datatype Twitter = Twitter(card: string, title: string, description: string, images: seq<string>)
  /** The crawler flags, for all crawlers and for Googlebot. */
  datatype Robots = Robots(index: bool, follow: bool, googleBotIndex: bool, googleBotFollow: bool)

  datatype Metadata = Metadata(
    title: string,
    description: string,
    openGraph: OpenGraph,
    twitter: Twitter,
    robots: Robots)

  /**
    `generatePageMetadata`: a given title becomes `<title> | TomSoft`, a missing one the
    site title; description and image fall back to the site's; OpenGraph and Twitter
    repeat the page's title, description and image; every robots flag is `!noIndex`.
  */
  function GeneratePageMetadata(title: Option<string>, description: Option<string>,
                                image: Option<string>, noIndex: Option<bool>): (m: Metadata)
    ensures Given(title) ==> m.title == title.value + " | " + SiteName
    ensures !Given(title) ==> m.title == SiteTitle
    ensures m.description == (if Given(description) then description.value else SiteDescription)
    ensures m.openGraph.title == m.title && m.twitter.title == m.title
    ensures m.openGraph.description == m.description && m.twitter.description == m.description
    ensures |m.openGraph.images| == 1 && m.openGraph.images[0].alt == m.title
    ensures m.openGraph.images[0].url == (if Given(image) then image.value else SiteOgImage)
    ensures m.twitter.images == [m.openGraph.images[0].url]
    ensures var indexable := noIndex != Some(true);
            m.robots.index == indexable && m.robots.follow == indexable &&
            m.robots.googleBotIndex == indexable && m.robots.googleBotFollow == indexable
  {
    var pageTitle := if Given(title) then title.value + " | " + SiteName else SiteTitle;
    var pageDescription := if Given(description) then description.value else SiteDescription;
    var pageImage := if Given(image) then image.value else SiteOgImage;
    var indexable := !(noIndex.Some? && noIndex.value);
    Metadata(
      pageTitle,
      pageDescription,
      OpenGraph(SiteUrl, pageTitle, pageDescription, SiteName, [OgImage(pageImage, 1200, 630, pageTitle)]),
      Twitter("summary_large_image", pageTitle, pageDescription, [pageImage]),
      Robots(indexable, follow := indexable, googleBotIndex := indexable, googleBotFollow := indexable))
  }

  /** A page is indexable unless `noIndex` is passed as `true`; omitting it keeps the page indexable. */
  lemma IndexableUnlessNoIndex(title: Option<string>, description: Option<string>, image: Option<string>)
    ensures GeneratePageMetadata(title, description, image, None).robots.index
    ensures GeneratePageMetadata(title, description, image, Some(false)).robots.index
    ensures !GeneratePageMetadata(title, description, image, Some(true)).robots.follow
  {
  }

  /** An empty string is no title: it gives the same metadata as no title at all. */
  lemma EmptyTitleIsNoTitle(description: Option<string>, image: Option<string>, noIndex: Option<bool>)
    ensures GeneratePageMetadata(Some(""), description, image, noIndex) ==
            GeneratePageMetadata(None, description, image, noIndex)
  {
  }

  /** The page title names the page and the site: it ends with ` | TomSoft`, or is the site title. */
  lemma TitleNamesSite(title: Option<string>, description: Option<string>, image: Option<string>, noIndex: Option<bool>)
    ensures var t := GeneratePageMetadata(title, description, image, noIndex).title;
            t == SiteTitle || (|t| >= 10 && t[|t| - 10..] == " | TomSoft")
  {
    var t := GeneratePageMetadata(title, description, image, noIndex).title;
    if Given(title) {
      assert t == title.value + " | TomSoft";
      assert t[|t| - 10..] == " | TomSoft";
    }
  }

  // ---------------------------------------------------------------------------
  // breadcrumbs

  /** One link of the trail: its label and its path on the site. */
  datatype Crumb = Crumb(name: string, url: string)

  /** One `ListItem` of the `BreadcrumbList`. */
  datatype ListItem = ListItem(position: nat, name: string, item: string)

  /**
    `breadcrumbJsonLd`'s `itemListElement`: one item per link, in order, numbered from 1,
    with the link's label and its path appended to the site's address.
  */
  function BreadcrumbItems(items: seq<Crumb>): (r: seq<ListItem>)
    ensures |r| == |items|
    ensures forall k | 0 <= k < |r| :: r[k].position == k + 1 && r[k].name == items[k].name
    ensures forall k | 0 <= k < |r| :: r[k].item == SiteUrl + items[k].url
  {
    seq(|items|, k requires 0 <= k < |items| => ListItem(k + 1, items[k].name, SiteUrl + items[k].url))
  }

  /** Some item of the list carries position `p`. */
  predicate HasPosition(items: seq<Crumb>, p: int) {
    exists k | 0 <= k < |items| :: BreadcrumbItems(items)[k].position == p
  }

  /** The positions are exactly `1..n`, each once, increasing. */
  lemma BreadcrumbPositions(items: seq<Crumb>)
    ensures forall p :: HasPosition(items, p) <==> 1 <= p <= |items|
    ensures forall j, k | 0 <= j < k < |items| :: BreadcrumbItems(items)[j].position < BreadcrumbItems(items)[k].position
  {
    forall p | 1 <= p <= |items|
      ensures HasPosition(items, p)
    {
      assert BreadcrumbItems(items)[p - 1].position == p;
    }
  }

  /** The list can be read back: each item's label and path give the original link. */
  lemma BreadcrumbRoundTrip(items: seq<Crumb>)
    ensures forall k | 0 <= k < |items| ::
              var it := BreadcrumbItems(items)[k];
              SiteUrl <= it.item && Crumb(it.name, it.item[|SiteUrl|..]) == items[k]
  {
  }

  /** A longer trail extends the list: appending a link appends one item numbered after the rest. */
  lemma BreadcrumbAppend(items: seq<Crumb>, c: Crumb)
    ensures BreadcrumbItems(items + [c]) == BreadcrumbItems(items) + [ListItem(|items| + 1, c.name, SiteUrl + c.url)]
  {
  }
}
