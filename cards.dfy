/** The `Dashboard` component of src/components/dashboard.tsx: an append-only
    list of cards with ids `card-<n>`, a markdown draft, and the HTML page
    `downloadDashboard` builds from the cards. */
module Cards {
  import opened Wrappers
  import opened Text
  import Csv

  /** A markdown card holds the draft text it was created from; a chart card
      holds the two column names it was created with (undefined when there is
      no such column). */
  datatype Card =
    | MarkdownCard(content: string, id: string)
    | ChartCard(xAxis: Option<string>, yAxis: Option<string>, id: string)

  /** `card-${n}` */
  function CardId(n: nat): (r: string)
    ensures |r| > 5 && r[..5] == "card-"
  {
    "card-" + NatToString(n)
  }

  /** Different positions give different ids. */
  lemma CardIdInjective(m: nat, n: nat)
    requires m != n
    ensures CardId(m) != CardId(n)
  {
    NatToStringInjective(m, n);
    assert CardId(m)[5..] == NatToString(m);
    assert CardId(n)[5..] == NatToString(n);
  }

  /** The page `downloadDashboard` offers for download. */
  datatype Download = Download(fileName: string, mimeType: string, body: string)

  class Dashboard {
    var cards: seq<Card>
    var markdownContent: string
    /** The column names of the loaded data (`Object.keys(results.data[0])`). */
    var columns: seq<string>

    /** Cards are only ever appended, each with the id of its position. */
    predicate Valid()
      reads this
    {
      forall i :: 0 <= i < |cards| ==> cards[i].id == CardId(i)
    }

    constructor()
      ensures Valid()
      ensures cards == [] && markdownContent == "" && columns == []
    {
      cards := [];
      markdownContent := "";
      columns := [];
    }

    /** The textarea's `onChange`: the draft becomes the typed text. */
    method SetMarkdownContent(text: string)
      modifies this
      ensures markdownContent == text
      ensures cards == old(cards) && columns == old(columns)
    {
      markdownContent := text;
    }

    /** The completion callback of the CSV parser, given the column names it
        found. */
    method SetColumns(names: seq<string>)
      modifies this
      ensures columns == names
      ensures cards == old(cards) && markdownContent == old(markdownContent)
    {
      columns := names;
    }

    /** `addMarkdownCard()`: the draft becomes a new last card and is cleared. */
    method AddMarkdownCard()
      requires Valid()
      modifies this
      ensures Valid()
      ensures cards == old(cards) + [MarkdownCard(old(markdownContent), CardId(|old(cards)|))]
      ensures markdownContent == "" && columns == old(columns)
    {
      cards := cards + [MarkdownCard(markdownContent, CardId(|cards|))];
      markdownContent := "";
    }

    /** `addChartCard(xAxis, yAxis)` */
    method AddChartCard(xAxis: Option<string>, yAxis: Option<string>)
      requires Valid()
      modifies this
      ensures Valid()
      ensures cards == old(cards) + [ChartCard(xAxis, yAxis, CardId(|old(cards)|))]
      ensures markdownContent == old(markdownContent) && columns == old(columns)
    {
      cards := cards + [ChartCard(xAxis, yAxis, CardId(|cards|))];
    }

    /** The "Add Chart Card" button: `addChartCard(columns[0], columns[1])`. */
    method ClickAddChart()
      requires Valid()
      modifies this
      ensures Valid()
      ensures cards == old(cards) + [ChartCard(Csv.At(columns, 0), Csv.At(columns, 1), CardId(|old(cards)|))]
      ensures markdownContent == old(markdownContent) && columns == old(columns)
    {
      AddChartCard(Csv.At(columns, 0), Csv.At(columns, 1));
    }

    /** `downloadDashboard()` with `JSON.stringify(data)` passed in: the page is
        built from the cards, and the file name and type are fixed. */
    method DownloadDashboard(dataJson: string) returns (file: Download)
      ensures file.fileName == "dashboard.html" && file.mimeType == "text/html"
      ensures file.body == ExportHtml(cards, dataJson)
    {
      var html := ExportHtml(cards, dataJson);
      file := Download("dashboard.html", "text/html", html);
    }
  }

  /** Ids are distinct as long as the cards keep the ids of their positions. */
  lemma IdsDistinct(cards: seq<Card>)
    requires forall i :: 0 <= i < |cards| ==> cards[i].id == CardId(i)
    ensures forall i, j :: 0 <= i < j < |cards| ==> cards[i].id != cards[j].id
  {
    forall i, j | 0 <= i < j < |cards|
      ensures cards[i].id != cards[j].id
    {
      CardIdInjective(i, j);
    }
  }

  // ---------------------------------------------------------------------
  // The exported page

  /** The fixed text of the page template, cut where the cards and the data
      are spliced in. */
  datatype Layout = Layout(
    head: string,
    sectionOpen: string,
    sectionClose: string,
    chartOpen: string,
    chartClose: string,
    dataOpen: string,
    dataClose: string)

  /** The text of the `downloadDashboard` template, white space included. */
  const Page: Layout := Layout(
    "\n    <!DOCTYPE html>\n    <html>\n    <head>\n        <title>Dashboard Export</title>\n"
    + "        <script src=\"https://cdnjs.cloudflare.com/ajax/libs/react/18.2.0/umd/react.production.min.js\"></script>\n"
    + "        <script src=\"https://cdnjs.cloudflare.com/ajax/libs/react-dom/18.2.0/umd/react-dom.production.min.js\"></script>\n"
    + "        <script src=\"https://cdnjs.cloudflare.com/ajax/libs/recharts/2.12.3/Recharts.js\"></script>\n"
    + "        <link href=\"https://cdn.jsdelivr.net/npm/tailwindcss@2.2.19/dist/tailwind.min.css\" rel=\"stylesheet\">\n"
    + "    </head>\n    <body>\n        <div id=\"root\">\n        <div class=\"p-8\">\n            ",
    "\n                <div class=\"bg-white p-6 rounded-lg shadow-lg mb-6\">\n                    ",
    "\n                </div>\n                ",
    "<div style=\"height: 300px;\">\n                    <!-- Chart placeholder -->\n                    ",
    "\n                    </div>",
    "\n        </div>\n        </div>\n        <script>\n        const data = ",
    ";\n        // Initialize charts here\n        </script>\n    </body>\n    </html>\n")

  /** `<div id="${card.id}"></div>` */
  function IdDiv(id: string): string {
    "<div id=\"" + id + "\"></div>"
  }

  /** What the `cards.map` callback returns for one card: the markdown text as
      it is, or a placeholder `div` carrying the card's id. */
  function Section(l: Layout, card: Card): string {
    match card
    case MarkdownCard(content, _) => l.sectionOpen + content + l.sectionClose
    case ChartCard(_, _, id) => l.sectionOpen + l.chartOpen + IdDiv(id) + l.chartClose + l.sectionClose
  }

  /** `cards.map(...)`: one section per card, in order. */
  function SectionList(l: Layout, cards: seq<Card>): seq<string> {
    seq(|cards|, k requires 0 <= k < |cards| => Section(l, cards[k]))
  }

  /** `cards.map(...).join('')` */
  function Sections(l: Layout, cards: seq<Card>): string {
    Concat(SectionList(l, cards))
  }

  function Export(l: Layout, cards: seq<Card>, dataJson: string): string {
    l.head + Sections(l, cards) + (l.dataOpen + dataJson + l.dataClose)
  }

  /** `dashboardHTML`, with `JSON.stringify(data)` passed in. */
  function ExportHtml(cards: seq<Card>, dataJson: string): string {
    Export(Page, cards, dataJson)
  }

  /** The sections follow the order of the cards: the sections of a
      concatenation of card lists are those of the first list, then those of
      the second, with nothing between them. */
  lemma SectionsAppend(l: Layout, a: seq<Card>, b: seq<Card>)
    ensures Sections(l, a + b) == Sections(l, a) + Sections(l, b)
  {
    assert SectionList(l, a + b) == SectionList(l, a) + SectionList(l, b);
    ConcatAppend(SectionList(l, a), SectionList(l, b));
  }

  lemma SectionsSingle(l: Layout, card: Card)
    ensures Sections(l, [card]) == Section(l, card)
  {
    assert SectionList(l, [card]) == [Section(l, card)];
    assert Concat([Section(l, card)]) == Section(l, card) + Concat([]);
  }

  /** The section of card `i` sits right after the sections of the cards
      before it and right before those of the cards after it: one section per
      card, in list order. */
  lemma SectionOfCard(l: Layout, cards: seq<Card>, i: nat)
    requires i < |cards|
    ensures Sections(l, cards) == Sections(l, cards[..i]) + Section(l, cards[i]) + Sections(l, cards[i + 1..])
  {
    var parts := SectionList(l, cards);
    ConcatAt(parts, i);
    assert parts[..i] == SectionList(l, cards[..i]);
    assert parts[i + 1..] == SectionList(l, cards[i + 1..]);
  }

  /** Where the section of card `i` starts in the page. */
  function SectionStart(l: Layout, cards: seq<Card>, i: nat): nat
    requires i <= |cards|
  {
    |l.head| + |Sections(l, cards[..i])|
  }

  /** A piece found at offset `q` of `m` is found at offset `|a| + q` of
      `a + m + b`. */
  lemma InMiddle(a: string, m: string, b: string, q: nat, x: string)
    requires q + |x| <= |m| && m[q..q + |x|] == x
    ensures |a| + q + |x| <= |a + m + b| && (a + m + b)[|a| + q..|a| + q + |x|] == x
  {
    var w := a + m + b;
    forall k | 0 <= k < |x|
      ensures w[|a| + q + k] == x[k]
    {
      assert w[|a| + q + k] == m[q + k];
      assert m[q..q + |x|][k] == m[q + k];
    }
  }

  /** A piece found at offset `q` of the section of card `i` is found at
      offset `q` from where that section starts in the page. */
  lemma InSection(l: Layout, cards: seq<Card>, dataJson: string, i: nat, q: nat, x: string)
    requires i < |cards|
    requires q + |x| <= |Section(l, cards[i])| && Section(l, cards[i])[q..q + |x|] == x
    ensures var p := SectionStart(l, cards, i) + q;
      p + |x| <= |Export(l, cards, dataJson)| && Export(l, cards, dataJson)[p..p + |x|] == x
  {
    var r := |Sections(l, cards[..i])| + q;
    InSections(l, cards, i, q, x);
    InMiddle(l.head, Sections(l, cards), l.dataOpen + dataJson + l.dataClose, r, x);
  }

  /** The same within the joined sections. */
  lemma InSections(l: Layout, cards: seq<Card>, i: nat, q: nat, x: string)
    requires i < |cards|
    requires q + |x| <= |Section(l, cards[i])| && Section(l, cards[i])[q..q + |x|] == x
    ensures var r := |Sections(l, cards[..i])| + q;
      r + |x| <= |Sections(l, cards)| && Sections(l, cards)[r..r + |x|] == x
  {
    SectionOfCard(l, cards, i);
    InMiddle(Sections(l, cards[..i]), Section(l, cards[i]), Sections(l, cards[i + 1..]), q, x);
  }

  /** A markdown card's text is in the page as it was typed, with no
      escaping and no markdown conversion. */
  lemma MarkdownVerbatim(l: Layout, cards: seq<Card>, dataJson: string, i: nat)
    requires i < |cards| && cards[i].MarkdownCard?
    ensures var p := SectionStart(l, cards, i) + |l.sectionOpen|;
      p + |cards[i].content| <= |Export(l, cards, dataJson)| &&
      Export(l, cards, dataJson)[p..p + |cards[i].content|] == cards[i].content
  {
    var content := cards[i].content;
    assert content[0..|content|] == content;
    InMiddle(l.sectionOpen, content, l.sectionClose, 0, content);
    InSection(l, cards, dataJson, i, |l.sectionOpen|, content);
  }

  /** A chart card's section holds `<div id="..."></div>` with the card's own
      id. */
  lemma ChartPlaceholderId(l: Layout, cards: seq<Card>, dataJson: string, i: nat)
    requires i < |cards| && cards[i].ChartCard?
    ensures var p := SectionStart(l, cards, i) + |l.sectionOpen| + |l.chartOpen|;
      var tag := IdDiv(cards[i].id);
      p + |tag| <= |Export(l, cards, dataJson)| && Export(l, cards, dataJson)[p..p + |tag|] == tag
  {
    var tag, open, close := IdDiv(cards[i].id), l.sectionOpen + l.chartOpen, l.chartClose + l.sectionClose;
    ChartSection(l, cards[i]);
    InMiddle(open, tag, close, 0, tag);
    var section := Section(l, cards[i]);
    assert section == open + tag + close;
    assert |open| + |tag| <= |section| && section[|open|..|open| + |tag|] == tag;
    InSection(l, cards, dataJson, i, |open|, tag);
    assert |open| == |l.sectionOpen| + |l.chartOpen|;
  }

  /** A chart card's section cut around its placeholder `div`. */
  lemma ChartSection(l: Layout, card: Card)
    requires card.ChartCard?
    ensures Section(l, card) == (l.sectionOpen + l.chartOpen) + IdDiv(card.id) + (l.chartClose + l.sectionClose)
    ensures IdDiv(card.id)[0..|IdDiv(card.id)|] == IdDiv(card.id)
  {
  }

  /** The data is written once, after all the sections, as the value of the
      page's `data` constant. */
  lemma DataAfterSections(l: Layout, cards: seq<Card>, dataJson: string)
    ensures var p := |l.head| + |Sections(l, cards)| + |l.dataOpen|;
      p + |dataJson| <= |Export(l, cards, dataJson)| &&
      Export(l, cards, dataJson)[p..p + |dataJson|] == dataJson
  {
    assert dataJson[0..|dataJson|] == dataJson;
    InMiddle(l.dataOpen, dataJson, l.dataClose, 0, dataJson);
    InMiddle(l.head + Sections(l, cards), l.dataOpen + dataJson + l.dataClose, "", |l.dataOpen|, dataJson);
    assert l.head + Sections(l, cards) + (l.dataOpen + dataJson + l.dataClose) + ""
      == Export(l, cards, dataJson);
  }

  /** Adding a card adds its section at the end of the card area and leaves
      the rest of the page as it was. */
  lemma ExportAfterAdd(l: Layout, cards: seq<Card>, card: Card, dataJson: string)
    ensures Export(l, cards + [card], dataJson) ==
      l.head + (Sections(l, cards) + Section(l, card)) + (l.dataOpen + dataJson + l.dataClose)
  {
    SectionsAppend(l, cards, [card]);
    SectionsSingle(l, card);
  }
}
