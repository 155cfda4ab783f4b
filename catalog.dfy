/** The catalog keyboard: one button row per episode of the fetched page
    (`getEpisodes`), the page count, and the Previous/Next navigation row
    that the webhook handler appends. */
module Catalog {
  import opened Wrappers
  import opened JsText
  import opened Callback

  /** An inline-keyboard button: its label and its callback data. */
  datatype Button = Button(text: string, callbackData: string)

  type Row = seq<Button>
  type Keyboard = seq<Row>

  /** One entry of the catalog response's `result` list. */
  datatype Episode = Episode(id: int, episode: int, shortTitle: string)

  /** The catalog response: the episodes of one page and `totalAsset`. */
  datatype CatalogPage = CatalogPage(result: seq<Episode>, totalAsset: nat)

  /** Entries per catalog page, fixed by the catalog endpoint. */
  const PageSize := 10

  /** `${episode} :: ${shortTitle}` */
  function EpisodeLabel(e: Episode): string {
    IntToString(e.episode) + " :: " + e.shortTitle
  }

  /** The single-button row for one episode; its button plays the episode. */
  function EpisodeRow(e: Episode): Row {
    [Button(EpisodeLabel(e), Token(Play, e.id))]
  }

  /** `result.map(...)`: one row per episode, in the order of `result`,
      each the episode's single-button row. */
  function EpisodeRows(result: seq<Episode>): (rows: Keyboard)
    ensures |rows| == |result|
    ensures forall i :: 0 <= i < |result| ==> rows[i] == EpisodeRow(result[i])
  {
    if result == [] then [] else [EpisodeRow(result[0])] + EpisodeRows(result[1..])
  }

  /** An episode's button is labelled with its number and short title, and
      its callback data is a PLAY token that reads back as the episode id. */
  lemma EpisodeRowDecodes(e: Episode)
    ensures |EpisodeRow(e)| == 1
    ensures EpisodeRow(e)[0].text == IntToString(e.episode) + " :: " + e.shortTitle
    ensures Kind(EpisodeRow(e)[0].callbackData) == Play
    ensures SuffixValue(EpisodeRow(e)[0].callbackData) == Some(e.id)
  {
    KindsAvoidSeparator();
    TokenRoundTrip(Play, e.id);
  }

  /** `Math.ceil(totalAsset / 10)`: the fewest pages of PageSize entries
      that hold every asset. */
  function TotalPages(totalAsset: nat): (totalpage: nat)
    ensures PageSize * totalpage >= totalAsset
    ensures PageSize * (totalpage - 1) < totalAsset
  {
    (totalAsset + PageSize - 1) / PageSize
  }

  lemma TotalPagesExamples()
    ensures TotalPages(0) == 0 && TotalPages(95) == 10
    ensures TotalPages(100) == 10 && TotalPages(101) == 11
  {
  }

  /** The Previous button on page `page` leads to page `page - 1`. */
  function PreviousButton(page: int): Button {
    Button("Previous", Token(Page, page - 1))
  }

  /** The Next button on page `page` leads to page `page + 1`. */
  function NextButton(page: int): Button {
    Button("Next", Token(Page, page + 1))
  }

  /** `page - 1 > 0`, where NaN compares false. */
  predicate ShowsPrevious(page: Option<int>) {
    page.Some? && page.value - 1 > 0
  }

  /** `page + 1 <= totalpage`, where NaN compares false. */
  predicate ShowsNext(page: Option<int>, totalpage: int) {
    page.Some? && page.value + 1 <= totalpage
  }

  /** The navigation row: Previous if shown, then Next if shown. */
  function NavRow(page: Option<int>, totalpage: int): Row {
    (if ShowsPrevious(page) then [PreviousButton(page.value)] else []) +
    (if ShowsNext(page, totalpage) then [NextButton(page.value)] else [])
  }

  /** The keyboard of a catalog reply: the episode rows, then the
      navigation row when it is not empty. */
  function KeyboardFor(page: Option<int>, catalogPage: CatalogPage): Keyboard {
    var nav := NavRow(page, TotalPages(catalogPage.totalAsset));
    EpisodeRows(catalogPage.result) + (if nav == [] then [] else [nav])
  }

  predicate HasButton(row: Row, caption: string) {
    exists i :: 0 <= i < |row| && row[i].text == caption
  }

  /** The navigation row holds Previous exactly when the page is above 1,
      and Next exactly when the page after it exists; when both appear,
      Previous comes first; a NaN page gives no navigation at all. */
  lemma NavRowShape(page: Option<int>, totalpage: int)
    ensures HasButton(NavRow(page, totalpage), "Previous") <==> page.Some? && page.value > 1
    ensures HasButton(NavRow(page, totalpage), "Next") <==> page.Some? && page.value + 1 <= totalpage
    ensures |NavRow(page, totalpage)| <= 2
    ensures |NavRow(page, totalpage)| == 2 ==>
              NavRow(page, totalpage)[0].text == "Previous" && NavRow(page, totalpage)[1].text == "Next"
    ensures page.None? ==> NavRow(page, totalpage) == []
    ensures forall k :: 0 <= k < |NavRow(page, totalpage)| ==>
              NavRow(page, totalpage)[k].text == "Previous" || NavRow(page, totalpage)[k].text == "Next"
    ensures NavRow(page, totalpage) == [] <==> !ShowsPrevious(page) && !ShowsNext(page, totalpage)
  {
    var row := NavRow(page, totalpage);
    if ShowsPrevious(page) {
      assert row[0].text == "Previous";
    }
    if ShowsNext(page, totalpage) {
      assert row[|row| - 1].text == "Next";
    }
  }

  /** Each navigation button carries the PAGE token of the neighbouring
      page: page - 1 for Previous, page + 1 for Next. */
  lemma NavRowTokens(page: Option<int>, totalpage: int, k: nat)
    requires k < |NavRow(page, totalpage)|
    ensures page.Some?
    ensures NavRow(page, totalpage)[k].callbackData ==
              Token(Page, if NavRow(page, totalpage)[k].text == "Previous" then page.value - 1 else page.value + 1)
  {
    var b := NavRow(page, totalpage)[k];
    if b.text == "Previous" {
      assert b == PreviousButton(page.value);
    } else {
      assert b == NextButton(page.value);
    }
  }

  /** Each navigation button reads back as a PAGE token for the
      neighbouring page. */
  lemma NavRowTargets(page: Option<int>, totalpage: int, k: nat)
    requires k < |NavRow(page, totalpage)|
    ensures page.Some?
    ensures Kind(NavRow(page, totalpage)[k].callbackData) == Page
    ensures SuffixValue(NavRow(page, totalpage)[k].callbackData) ==
              Some(if NavRow(page, totalpage)[k].text == "Previous" then page.value - 1 else page.value + 1)
  {
    var b := NavRow(page, totalpage)[k];
    NavRowTokens(page, totalpage, k);
    KindsAvoidSeparator();
    TokenRoundTrip(Page, if b.text == "Previous" then page.value - 1 else page.value + 1);
  }

  lemma NavRowExamples()
    ensures NavRow(Some(1), 5) == [NextButton(1)]
    ensures NavRow(Some(5), 5) == [PreviousButton(5)]
    ensures NavRow(Some(3), 5) == [PreviousButton(3), NextButton(3)]
    ensures NavRow(Some(1), 1) == []
    ensures NavRow(Some(1), 0) == [] && NavRow(Some(0), 0) == []
    ensures NavRow(Some(0), 5) == [NextButton(0)] && NextButton(0).callbackData == Token(Page, 1)
    ensures NavRow(None, 5) == []
  {
  }

  /** With a NaN page the keyboard is the episode rows alone. */
  lemma NaNPageKeyboard(catalogPage: CatalogPage)
    ensures KeyboardFor(None, catalogPage) == EpisodeRows(catalogPage.result)
  {
    NavRowShape(None, TotalPages(catalogPage.totalAsset));
  }

  /** The keyboard of the handler, built as `index.js` builds it: the
      episode rows, a navigation array filled by conditional pushes, and a
      final push of that array when it is not empty. The episode rows are
      kept as they are and the navigation row, if any, is the last row. */
  method BuildKeyboard(page: Option<int>, catalogPage: CatalogPage) returns (keyboard: Keyboard)
    ensures keyboard == KeyboardFor(page, catalogPage)
    ensures |keyboard| == |catalogPage.result| + (if NavRow(page, TotalPages(catalogPage.totalAsset)) == [] then 0 else 1)
    ensures keyboard[..|catalogPage.result|] == EpisodeRows(catalogPage.result)
    ensures NavRow(page, TotalPages(catalogPage.totalAsset)) != [] ==>
              keyboard[|keyboard| - 1] == NavRow(page, TotalPages(catalogPage.totalAsset))
  {
    var episodeUI := EpisodeRows(catalogPage.result);
    var totalpage := TotalPages(catalogPage.totalAsset);
    var pageArr: Row := [];
    if page.Some? && page.value - 1 > 0 {
      pageArr := pageArr + [Button("Previous", Token(Page, page.value - 1))];
    }
    assert pageArr == if ShowsPrevious(page) then [PreviousButton(page.value)] else [];
    if page.Some? && page.value + 1 <= totalpage {
      pageArr := pageArr + [Button("Next", Token(Page, page.value + 1))];
    }
    assert pageArr == NavRow(page, totalpage);
    if |pageArr| > 0 {
      episodeUI := episodeUI + [pageArr];
    }
    keyboard := episodeUI;
  }
}
