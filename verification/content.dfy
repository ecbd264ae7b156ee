/** The site-content override table as the page uses it: the rows folded into
    a map keyed by section (App.tsx:107-114), the per-section heading with its
    fallback to hard-coded defaults (App.tsx:31-65), and the hero record with
    its whole-record fallback (App.tsx:119, App.tsx:182-188). */
module Content {
  import opened Types

  type ContentMap = map<string, SiteContent>

  /** The section names the rows carry. */
  function Sections(rows: seq<SiteContent>): set<string>
  {
    set i | 0 <= i < |rows| :: rows[i].section
  }

  /** No later row carries the same section as row `i`. */
  ghost predicate IsLastFor(rows: seq<SiteContent>, i: int)
    requires 0 <= i < |rows|
  {
    forall j :: i < j < |rows| ==> rows[j].section != rows[i].section
  }

  /** The rows stored one by one, in order, into an initially empty map under
      their section, each store replacing whatever that section held. Every
      entry is filed under its own row's section. */
  function FoldRows(rows: seq<SiteContent>): (m: ContentMap)
    ensures forall k :: k in m ==> m[k].section == k
  {
    if |rows| == 0 then map[]
    else FoldRows(rows[..|rows| - 1])[rows[|rows| - 1].section := rows[|rows| - 1]]
  }

  /** The map's keys are exactly the sections the rows carry. */
  lemma {:induction false} FoldKeys(rows: seq<SiteContent>)
    ensures FoldRows(rows).Keys == Sections(rows)
  {
    if |rows| > 0 {
      var n := |rows| - 1;
      var init := rows[..n];
      FoldKeys(init);
      assert Sections(rows) == Sections(init) + {rows[n].section} by {
        forall k | k in Sections(rows) ensures k in Sections(init) + {rows[n].section} {
          var i :| 0 <= i < |rows| && rows[i].section == k;
          if i < n { assert init[i] == rows[i]; }
        }
        forall k | k in Sections(init) ensures k in Sections(rows) {
          var i :| 0 <= i < |init| && init[i].section == k;
          assert rows[i] == init[i];
        }
      }
    }
  }

  /** Each section maps to the last row that carries it. */
  lemma {:induction false} FoldKeepsLastRow(rows: seq<SiteContent>)
    ensures forall i :: 0 <= i < |rows| && IsLastFor(rows, i) ==>
              rows[i].section in FoldRows(rows) && FoldRows(rows)[rows[i].section] == rows[i]
  {
    if |rows| > 0 {
      var n := |rows| - 1;
      var init := rows[..n];
      var last := rows[n];
      FoldKeepsLastRow(init);
      assert FoldRows(rows) == FoldRows(init)[last.section := last];
      forall i | 0 <= i < |rows| && IsLastFor(rows, i)
        ensures rows[i].section in FoldRows(rows) && FoldRows(rows)[rows[i].section] == rows[i]
      {
        if i < n {
          assert init[i] == rows[i];
          assert rows[i].section != last.section;
          assert IsLastFor(init, i) by {
            forall j | i < j < n ensures init[j].section != init[i].section {
              assert init[j] == rows[j];
            }
          }
        }
      }
    }
  }

  /** With one row per section, as the table's unique key guarantees, every row is found under its section. */
  lemma UniqueSectionsAllFound(rows: seq<SiteContent>)
    requires forall i, j :: 0 <= i < j < |rows| ==> rows[i].section != rows[j].section
    ensures forall i :: 0 <= i < |rows| ==>
              rows[i].section in FoldRows(rows) && FoldRows(rows)[rows[i].section] == rows[i]
  {
    FoldKeepsLastRow(rows);
  }

  /** The loop the page runs over the fetched rows. */
  method BuildContentMap(rows: seq<SiteContent>) returns (m: ContentMap)
    ensures m == FoldRows(rows)
  {
    m := map[];
    var i := 0;
    while i < |rows|
      invariant 0 <= i <= |rows|
      invariant m == FoldRows(rows[..i])
    {
      assert rows[..i + 1][..i] == rows[..i];
      m := m[rows[i].section := rows[i]];
      i := i + 1;
    }
    assert rows[..|rows|] == rows;
  }

  function Lookup(m: ContentMap, section: string): Option<SiteContent>
  {
    if section in m then Some(m[section]) else None
  }

  // ---------------------------------------------------------------------------
  // Section headings.
  // ---------------------------------------------------------------------------

  /** A `string | undefined` value is truthy when defined and non-empty. */
  predicate Truthy(s: Option<string>)
  {
    s.Some? && s.value != ""
  }

  /** The resolved title and subtitle of a section; `None` is `undefined`. */
  datatype Heading = Heading(title: Option<string>, subtitle: Option<string>)

  /** The row's title when there is a row and its title is non-empty, the
      default otherwise; the subtitle is resolved the same way. */
  function ResolveHeading(content: Option<SiteContent>, defaultTitle: Option<string>, defaultSubtitle: Option<string>): (h: Heading)
    ensures content.Some? && content.value.title != "" ==> h.title == Some(content.value.title)
    ensures content.None? || content.value.title == "" ==> h.title == defaultTitle
    ensures content.Some? && content.value.subtitle != "" ==> h.subtitle == Some(content.value.subtitle)
    ensures content.None? || content.value.subtitle == "" ==> h.subtitle == defaultSubtitle
  {
    match content
    case None => Heading(defaultTitle, defaultSubtitle)
    case Some(c) =>
      Heading(if c.title != "" then Some(c.title) else defaultTitle,
              if c.subtitle != "" then Some(c.subtitle) else defaultSubtitle)
  }

  /** The bordered heading block is drawn when there is a title or a subtitle to show. */
  predicate ShowsHeadingBlock(h: Heading): (b: bool)
    ensures !b <==> (h.title.None? || h.title.value == "") && (h.subtitle.None? || h.subtitle.value == "")
  {
    Truthy(h.title) || Truthy(h.subtitle)
  }

  /** A section with an override row shows the last such row's non-empty texts,
      and falls back per field to the defaults where that row's text is empty. */
  lemma HeadingFollowsLastRow(rows: seq<SiteContent>, i: int, defaultTitle: Option<string>, defaultSubtitle: Option<string>)
    requires 0 <= i < |rows| && IsLastFor(rows, i)
    ensures ResolveHeading(Lookup(FoldRows(rows), rows[i].section), defaultTitle, defaultSubtitle)
         == Heading(if rows[i].title != "" then Some(rows[i].title) else defaultTitle,
                    if rows[i].subtitle != "" then Some(rows[i].subtitle) else defaultSubtitle)
  {
    FoldKeepsLastRow(rows);
  }

  /** A section without an override row (or whose rows failed to load) shows its defaults. */
  lemma HeadingWithoutRow(rows: seq<SiteContent>, section: string, defaultTitle: Option<string>, defaultSubtitle: Option<string>)
    requires forall i :: 0 <= i < |rows| ==> rows[i].section != section
    ensures ResolveHeading(Lookup(FoldRows(rows), section), defaultTitle, defaultSubtitle)
         == Heading(defaultTitle, defaultSubtitle)
  {
  }

  /** The defaults the page passes for its three dynamic sections. */
  datatype SectionDefaults = SectionDefaults(key: string, title: Option<string>, subtitle: Option<string>)

  const NewsSection := SectionDefaults("news", Some("Últimas Notícias"), None)
  const CalendarSection := SectionDefaults("calendar", Some("Calendário & Resultados"),
                                           Some("Acompanha a nossa jornada jornada a jornada."))
  const TeamsSection := SectionDefaults("teams", Some("As Nossas Equipas"), None)

  function SectionHeading(m: ContentMap, d: SectionDefaults): Heading
  {
    ResolveHeading(Lookup(m, d.key), d.title, d.subtitle)
  }

  /** Every dynamic section on the page has a non-empty default title, so its
      heading block is always drawn, whatever the override table holds. */
  lemma PageSectionsAlwaysHeaded(m: ContentMap)
    ensures forall d :: d in [NewsSection, CalendarSection, TeamsSection] ==>
              ShowsHeadingBlock(SectionHeading(m, d)) && Truthy(SectionHeading(m, d).title)
  {
  }

  // ---------------------------------------------------------------------------
  // The hero.
  // ---------------------------------------------------------------------------

  datatype Hero = Hero(title: string, subtitle: string, imageUrl: string)

  const DefaultHero := Hero("ALMA VISEU", "Paixão. Competição. Voleibol.",
                            "https://picsum.photos/1920/1080?grayscale&blur=2")

  /** A `hero` row, when present, replaces the default record as
      a whole, field by field, even where its fields are empty. */
  function CurrentHero(m: ContentMap): (h: Hero)
    ensures "hero" in m ==> h.title == m["hero"].title && h.subtitle == m["hero"].subtitle
                            && h.imageUrl == m["hero"].imageUrl
    ensures "hero" !in m ==> h == DefaultHero
  {
    match Lookup(m, "hero")
    case Some(c) => Hero(c.title, c.subtitle, c.imageUrl)
    case None => DefaultHero
  }

  /** The hero shows the last `hero` row's title as it is, empty or not, and
      the default only when no row has section `hero`. */
  lemma HeroTitleFromRows(rows: seq<SiteContent>)
    ensures (exists i :: 0 <= i < |rows| && rows[i].section == "hero") || CurrentHero(FoldRows(rows)) == DefaultHero
    ensures forall i :: 0 <= i < |rows| && rows[i].section == "hero" && IsLastFor(rows, i) ==>
              CurrentHero(FoldRows(rows)).title == rows[i].title
  {
    FoldKeys(rows);
    FoldKeepsLastRow(rows);
    if "hero" in FoldRows(rows) {
      assert "hero" in Sections(rows);
    }
  }
}
