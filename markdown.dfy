/** The live preview of a text block (`MarkdownBlock` in
    components/DashboardBuilder.tsx): the content is cut into lines, each line
    becomes exactly one block-level node by a prefix cascade, and paragraph and
    list lines go through three regular-expression substitutions for bold,
    italic and links. The substitutions are written out as scanners that make
    the same choices as JavaScript's backtracking matcher. The markup they
    insert is a parameter; `Tags` holds the markup the component writes. */
module Markdown {
  import opened Wrappers
  import opened Text

  /** The markup the substitutions insert: the bold and italic wrappers, and
      an anchor as the pieces before its address, between its address and its
      text, and after its text. */
  datatype Markup = Markup(
    boldOpen: string, boldClose: string,
    italicOpen: string, italicClose: string,
    anchorOpen: string, anchorMiddle: string, anchorClose: string)

  /** The markup `processInlineMarkdown` writes. */
  const Tags: Markup := Markup(
    "<strong class=\"font-bold\">", "</strong>",
    "<em class=\"italic\">", "</em>",
    "<a href=\"", "\" class=\"text-indigo-600 hover:text-indigo-800 transition-colors\" target=\"_blank\">", "</a>")

  function Anchor(m: Markup, href: string, text: string): string {
    m.anchorOpen + href + m.anchorMiddle + text + m.anchorClose
  }

  /** The characters the regular-expression `.` does not match. */
  predicate IsLineTerminator(c: char) {
    c == '\n' || c == '\r' || c == '\U{2028}' || c == '\U{2029}'
  }

  predicate NoTerminator(s: string) {
    forall k :: 0 <= k < |s| ==> !IsLineTerminator(s[k])
  }

  /** A character no later substitution and no address scan reacts to. */
  predicate Inactive(c: char) {
    c != '*' && c != '_' && c != '[' && c != ')' && !IsLineTerminator(c)
  }

  /** The characters of `t` from index i on are all inactive. */
  predicate QuietFrom(t: string, i: nat)
    decreases |t| - i
  {
    i >= |t| || (Inactive(t[i]) && QuietFrom(t, i + 1))
  }

  /** A piece of markup made of inactive characters only. */
  predicate Quiet(t: string) {
    QuietFrom(t, 0)
  }

  /** Bold and italic markup that the italic and link passes leave alone. */
  predicate Inert(m: Markup) {
    Quiet(m.boldOpen) && Quiet(m.boldClose) && Quiet(m.italicOpen) && Quiet(m.italicClose)
  }

  lemma {:induction false} QuietFromAt(t: string, i: nat, k: nat)
    requires QuietFrom(t, i) && i <= k < |t|
    decreases k - i
    ensures Inactive(t[k])
  {
    if i < k {
      QuietFromAt(t, i + 1, k);
    }
  }

  lemma QuietMeans(t: string)
    requires Quiet(t)
    ensures '*' !in t && '_' !in t && '[' !in t && ')' !in t && NoTerminator(t)
  {
    forall k | 0 <= k < |t| ensures Inactive(t[k]) {
      QuietFromAt(t, 0, k);
    }
  }

  lemma {:induction false} QuietFromAll(t: string, i: nat)
    requires i <= |t| && forall k :: i <= k < |t| ==> Inactive(t[k])
    decreases |t| - i
    ensures QuietFrom(t, i)
  {
    if i < |t| {
      QuietFromAll(t, i + 1);
    }
  }

  lemma QuietConcat(a: string, b: string)
    requires Quiet(a) && Quiet(b)
    ensures Quiet(a + b)
  {
    forall k | 0 <= k < |a + b| ensures Inactive((a + b)[k]) {
      if k < |a| {
        QuietFromAt(a, 0, k);
      } else {
        QuietFromAt(b, 0, k - |a|);
      }
    }
    QuietFromAll(a + b, 0);
  }

  // ---------------------------------------------------------------------
  // Matching

  /** The lazy tail `(.*?)d` of a pattern, started at index j of `s`: the
      group grows one character at a time, so the match closes at the first
      occurrence of `d` from j on, provided `.` accepts everything before it. */
  function CloseAt(s: string, d: string, j: nat): (r: Option<nat>)
    requires j <= |s|
    decreases |s| - j
    ensures r.Some? ==> j <= r.value && r.value + |d| <= |s|
  {
    if HasPrefix(s[j..], d) then Some(j)
    else if j == |s| || IsLineTerminator(s[j]) then None
    else CloseAt(s, d, j + 1)
  }

  /** What `CloseAt` finds is a copy of the delimiter, and the group before
      it holds no line terminator. */
  lemma {:induction false} CloseAtSound(s: string, d: string, j: nat)
    requires j <= |s| && CloseAt(s, d, j).Some?
    decreases |s| - j
    ensures s[CloseAt(s, d, j).value..CloseAt(s, d, j).value + |d|] == d
    ensures NoTerminator(s[j..CloseAt(s, d, j).value])
  {
    var k := CloseAt(s, d, j).value;
    if HasPrefix(s[j..], d) {
      assert s[j..][..|d|] == s[j..j + |d|];
    } else {
      CloseAtSound(s, d, j + 1);
      assert s[j..k] == [s[j]] + s[j + 1..k];
    }
  }

  /** `CloseAt` finds the FIRST closing delimiter the lazy group can reach,
      and when it finds none, no position the group can reach holds one. */
  lemma {:induction false} CloseAtIsFirst(s: string, d: string, j: nat)
    requires j <= |s|
    decreases |s| - j
    ensures CloseAt(s, d, j).Some? ==>
      forall k :: j <= k < CloseAt(s, d, j).value ==> !HasPrefix(s[k..], d)
    ensures CloseAt(s, d, j).None? ==>
      forall k :: j <= k <= |s| && NoTerminator(s[j..k]) ==> !HasPrefix(s[k..], d)
  {
    if !HasPrefix(s[j..], d) && j < |s| && !IsLineTerminator(s[j]) {
      CloseAtIsFirst(s, d, j + 1);
      assert forall k :: j + 1 <= k <= |s| ==> s[j..k] == [s[j]] + s[j + 1..k];
    }
  }

  /** The pattern `d(.*?)d` tried at the start of `s`: the index at which the
      closing delimiter starts. */
  function PairAt(s: string, d: string): Option<nat>
    requires |d| > 0
  {
    if HasPrefix(s, d) then CloseAt(s, d, |d|) else None
  }

  /** `s.replace(/d(.*?)d/g, open + '$1' + close)`: scanning left to right,
      each match is replaced and the scan resumes after it; a position where
      no match starts keeps its character. */
  function ReplacePairs(s: string, d: string, open: string, close: string): string
    requires |d| > 0
    decreases |s|
  {
    if s == [] then []
    else match PairAt(s, d)
      case Some(k) => open + s[|d|..k] + close + ReplacePairs(s[k + |d|..], d, open, close)
      case None => [s[0]] + ReplacePairs(s[1..], d, open, close)
  }

  // text.replace(/\*\*(.*?)\*\*/g, ...)
  function Bold(m: Markup, s: string): string {
    ReplacePairs(s, "**", m.boldOpen, m.boldClose)
  }

  // text.replace(/_(.*?)_/g, ...)
  function Italic(m: Markup, s: string): string {
    ReplacePairs(s, "_", m.italicOpen, m.italicClose)
  }

  /** The part `(.*?)\]\((.*?)\)` of the link pattern with the text group
      ending at j, j + 1, ... in turn: the lazy text group backtracks until
      `](` follows it and the lazy address group finds a `)`. The result holds
      the index of `](` and the index of `)`. */
  function LinkTail(s: string, j: nat): (r: Option<(nat, nat)>)
    requires j <= |s|
    decreases |s| - j
    ensures r.Some? ==> j <= r.value.0 && r.value.0 + 2 <= r.value.1 < |s|
    ensures r.Some? ==> s[r.value.0] == ']' && s[r.value.0 + 1] == '(' && s[r.value.1] == ')'
  {
    if HasPrefix(s[j..], "](") && CloseAt(s, ")", j + 2).Some? then
      CloseAtSound(s, ")", j + 2);
      Some((j, CloseAt(s, ")", j + 2).value))
    else if j == |s| || IsLineTerminator(s[j]) then None
    else LinkTail(s, j + 1)
  }

  /** At index `k` the text group can end: `](` follows, and the lazy
      address group after it reaches a `)`. */
  predicate LinkAt(s: string, k: nat)
    requires k <= |s|
  {
    HasPrefix(s[k..], "](") && CloseAt(s, ")", k + 2).Some?
  }

  /** `LinkTail` stops at the FIRST index from which the text group can end,
      the text group crosses no line terminator, and the address group is
      the lazy one; `None` means no such index is reachable on the line. */
  lemma {:induction false} LinkTailIsFirst(s: string, j: nat)
    requires j <= |s|
    decreases |s| - j
    ensures LinkTail(s, j).Some? ==>
      NoTerminator(s[j..LinkTail(s, j).value.0]) &&
      (forall k :: j <= k < LinkTail(s, j).value.0 ==> !LinkAt(s, k)) &&
      CloseAt(s, ")", LinkTail(s, j).value.0 + 2) == Some(LinkTail(s, j).value.1)
    ensures LinkTail(s, j).None? ==>
      forall k :: j <= k <= |s| && NoTerminator(s[j..k]) ==> !LinkAt(s, k)
  {
    if !LinkAt(s, j) && j < |s| && !IsLineTerminator(s[j]) {
      LinkTailIsFirst(s, j + 1);
      assert forall k :: j + 1 <= k <= |s| ==> s[j..k] == [s[j]] + s[j + 1..k];
    }
  }

  // text.replace(/\[(.*?)\]\((.*?)\)/g, '<a href="$2" ...>$1</a>')
  function Link(m: Markup, s: string): string
    decreases |s|
  {
    if s == [] then []
    else if s[0] == '[' && LinkTail(s, 1).Some? then
      var p := LinkTail(s, 1).value;
      Anchor(m, s[p.0 + 2..p.1], s[1..p.0]) + Link(m, s[p.1 + 1..])
    else [s[0]] + Link(m, s[1..])
  }

  /** `processInlineMarkdown`: bold first, then italic, then links, each over
      the output of the one before. */
  function Inline(m: Markup, s: string): string {
    Link(m, Italic(m, Bold(m, s)))
  }

  // ---------------------------------------------------------------------
  // Lines and nodes

  /** The block-level elements a line can become. Heading text is raw; list
      and paragraph markup has been through `Inline`. */
  datatype Node =
    | Heading1(text: string)
    | Heading2(text: string)
    | Heading3(text: string)
    | ListItem(html: string)
    | Paragraph(html: string)
    | LineBreak

  /** The cascade applied to each line. The three heading prefixes exclude one
      another, and only the empty line is a break: a line of spaces or
      `#Title` is a paragraph. */
  function ClassifyLine(m: Markup, line: string): (r: Node)
    ensures r.Heading1? <==> HasPrefix(line, "# ")
    ensures r.Heading2? <==> HasPrefix(line, "## ")
    ensures r.Heading3? <==> HasPrefix(line, "### ")
    ensures r.Heading1? ==> line == "# " + r.text
    ensures r.Heading2? ==> line == "## " + r.text
    ensures r.Heading3? ==> line == "### " + r.text
    ensures r.ListItem? <==> HasPrefix(line, "- ")
    ensures r.ListItem? ==> r.html == Inline(m, line[2..])
    ensures r.LineBreak? <==> line == ""
    ensures r.Paragraph? ==> r.html == Inline(m, line)
  {
    if HasPrefix(line, "# ") then
      assert line[1] == "# "[1] != "## "[1];
      Heading1(line[2..])
    else if HasPrefix(line, "## ") then
      assert line[2] == "## "[2] != "### "[2];
      Heading2(line[3..])
    else if HasPrefix(line, "### ") then Heading3(line[4..])
    else if HasPrefix(line, "- ") then ListItem(Inline(m, line[2..]))
    else if line != "" then Paragraph(Inline(m, line))
    else LineBreak
  }

  function RenderLines(m: Markup, lines: seq<string>): (r: seq<Node>)
    ensures |r| == |lines|
  {
    if lines == [] then [] else [ClassifyLine(m, lines[0])] + RenderLines(m, lines[1..])
  }

  /** `content.split('\n').map(...)`: the nodes of a text block. */
  function Render(m: Markup, content: string): seq<Node> {
    RenderLines(m, Split(content, '\n'))
  }

  /** The preview the component shows. */
  function Preview(content: string): seq<Node> {
    Render(Tags, content)
  }

  // ---------------------------------------------------------------------
  // Rendering is line by line

  lemma {:induction false} RenderLinesAt(m: Markup, lines: seq<string>, i: nat)
    requires i < |lines|
    ensures RenderLines(m, lines)[i] == ClassifyLine(m, lines[i])
  {
    if i > 0 {
      RenderLinesAt(m, lines[1..], i - 1);
    }
  }

  lemma {:induction false} RenderLinesAppend(m: Markup, xs: seq<string>, ys: seq<string>)
    ensures RenderLines(m, xs + ys) == RenderLines(m, xs) + RenderLines(m, ys)
  {
    if xs != [] {
      RenderLinesAppend(m, xs[1..], ys);
      assert (xs + ys)[1..] == xs[1..] + ys;
    } else {
      assert xs + ys == ys;
    }
  }

  /** One node per line of the content, in the order of the lines: the i-th
      node is what the i-th line classifies to. */
  lemma RenderPerLine(m: Markup, content: string)
    ensures |Render(m, content)| == Count(content, '\n') + 1
    ensures forall i :: 0 <= i < |Render(m, content)| ==>
      Render(m, content)[i] == ClassifyLine(m, Split(content, '\n')[i])
  {
    SplitPieces(content, '\n');
    forall i | 0 <= i < |Render(m, content)|
      ensures Render(m, content)[i] == ClassifyLine(m, Split(content, '\n')[i])
    {
      RenderLinesAt(m, Split(content, '\n'), i);
    }
  }

  /** No state is carried from one line to the next: the nodes of two texts
      joined by a newline are the nodes of the first followed by those of the
      second. */
  lemma RenderAppend(m: Markup, a: string, b: string)
    ensures Render(m, a + "\n" + b) == Render(m, a) + Render(m, b)
  {
    SplitAppend(a, b, '\n');
    RenderLinesAppend(m, Split(a, '\n'), Split(b, '\n'));
  }

  // ---------------------------------------------------------------------
  // What the substitutions do

  lemma {:induction false} CloseAtSkip(s: string, d: string, j: nat, n: nat)
    requires |d| > 0 && j + n <= |s|
    requires forall k :: j <= k < j + n ==> s[k] != d[0] && !IsLineTerminator(s[k])
    ensures CloseAt(s, d, j) == CloseAt(s, d, j + n)
    decreases n
  {
    if n > 0 {
      PrefixHead(s[j..], d);
      CloseAtSkip(s, d, j + 1, n - 1);
    }
  }

  lemma {:induction false} ReplacePairsSkip(a: string, t: string, d: string, open: string, close: string)
    requires |d| > 0 && d[0] !in a
    ensures ReplacePairs(a + t, d, open, close) == a + ReplacePairs(t, d, open, close)
  {
    if a != [] {
      var s := a + t;
      PrefixHead(s, d);
      assert s[1..] == a[1..] + t;
      ReplacePairsSkip(a[1..], t, d, open, close);
    } else {
      assert a + t == t;
    }
  }

  /** A delimited span is replaced: text free of the delimiter's first
      character is kept, the first delimited run without a line terminator
      becomes `open + run + close`, and the scan resumes after it. */
  lemma PairSpan(a: string, b: string, c: string, d: string, open: string, close: string)
    requires |d| > 0 && d[0] !in a && d[0] !in b && NoTerminator(b)
    ensures ReplacePairs(a + d + b + d + c, d, open, close)
         == a + open + b + close + ReplacePairs(c, d, open, close)
  {
    Assoc4(a, d, b, d, c);
    ReplacePairsSkip(a, d + b + d + c, d, open, close);
    PairHere(b, c, d, open, close);
    Assoc4(a, open, b, close, ReplacePairs(c, d, open, close));
  }

  lemma Assoc4<T>(p: seq<T>, q: seq<T>, r: seq<T>, u: seq<T>, v: seq<T>)
    ensures p + q + r + u + v == p + (q + r + u + v)
  {
  }

  lemma Slices4<T>(p: seq<T>, q: seq<T>, r: seq<T>, u: seq<T>)
    ensures (p + q + r + u)[|p|..|p| + |q|] == q
    ensures (p + q + r + u)[|p| + |q| + |r|..] == u
  {
  }

  /** A delimited run at the very start of the text. */
  lemma PairHere(b: string, c: string, d: string, open: string, close: string)
    requires |d| > 0 && d[0] !in b && NoTerminator(b)
    ensures ReplacePairs(d + b + d + c, d, open, close)
         == open + b + close + ReplacePairs(c, d, open, close)
  {
    PairAtSpan(b, c, d);
    ReplacePairsAt(d + b + d + c, d, open, close);
    Slices4(d, b, d, c);
  }

  lemma ReplacePairsAt(s: string, d: string, open: string, close: string)
    requires |d| > 0 && PairAt(s, d).Some?
    ensures ReplacePairs(s, d, open, close)
         == open + s[|d|..PairAt(s, d).value] + close + ReplacePairs(s[PairAt(s, d).value + |d|..], d, open, close)
  {
  }

  lemma PairAtSpan(b: string, c: string, d: string)
    requires |d| > 0 && d[0] !in b && NoTerminator(b)
    ensures PairAt(d + b + d + c, d) == Some(|d| + |b|)
  {
    var t := d + b + d + c;
    assert t[..|d|] == d;
    forall k | |d| <= k < |d| + |b| ensures t[k] != d[0] && !IsLineTerminator(t[k]) {
      assert t[k] == b[k - |d|];
    }
    CloseAtSkip(t, d, |d|, |b|);
    assert t[|d| + |b|..][..|d|] == d;
  }

  /** `**b**` becomes the bold markup around b. */
  lemma BoldSpan(m: Markup, a: string, b: string, c: string)
    requires '*' !in a && '*' !in b && NoTerminator(b)
    ensures Bold(m, a + "**" + b + "**" + c) == a + m.boldOpen + b + m.boldClose + Bold(m, c)
  {
    PairSpan(a, b, c, "**", m.boldOpen, m.boldClose);
  }

  /** `_b_` becomes the italic markup around b. */
  lemma ItalicSpan(m: Markup, a: string, b: string, c: string)
    requires '_' !in a && '_' !in b && NoTerminator(b)
    ensures Italic(m, a + "_" + b + "_" + c) == a + m.italicOpen + b + m.italicClose + Italic(m, c)
  {
    PairSpan(a, b, c, "_", m.italicOpen, m.italicClose);
  }

  lemma {:induction false} LinkTailSkip(s: string, j: nat, n: nat)
    requires j + n <= |s|
    requires forall k :: j <= k < j + n ==> s[k] != ']' && !IsLineTerminator(s[k])
    ensures LinkTail(s, j) == LinkTail(s, j + n)
    decreases n
  {
    if n > 0 {
      PrefixHead(s[j..], "](");
      LinkTailSkip(s, j + 1, n - 1);
    }
  }

  lemma {:induction false} LinkSkip(m: Markup, a: string, t: string)
    requires '[' !in a
    ensures Link(m, a + t) == a + Link(m, t)
  {
    if a != [] {
      var s := a + t;
      assert s[0] == a[0];
      assert s[1..] == a[1..] + t;
      LinkSkip(m, a[1..], t);
    } else {
      assert a + t == t;
    }
  }

  /** `[text](href)` becomes an anchor whose address is href and whose
      content is text, when the text holds no `]` and the address no `)`;
      the scan resumes after the `)`. Text before the `[` that holds no `[`
      is kept as it is (`LinkSkip`). */
  lemma LinkSpan(m: Markup, text: string, href: string, c: string)
    requires ']' !in text && NoTerminator(text)
    requires ')' !in href && NoTerminator(href)
    ensures Link(m, "[" + text + "](" + href + ")" + c) == Anchor(m, href, text) + Link(m, c)
  {
    var t := "[" + text + "](" + href + ")" + c;
    var p := 1 + |text|;
    var q := p + 2 + |href|;
    LinkTailSpan(text, href, c);
    LinkAtPair(m, t, p, q);
    LinkPieces(text, href, c);
  }

  lemma LinkPieces(text: string, href: string, c: string)
    ensures var t := "[" + text + "](" + href + ")" + c;
      var p := 1 + |text|;
      var q := p + 2 + |href|;
      t[1..p] == text && t[p + 2..q] == href && t[q + 1..] == c
  {
  }

  /** One step of the link scan at a match whose `](` is at p and whose `)`
      is at q. */
  lemma LinkAtPair(m: Markup, s: string, p: nat, q: nat)
    requires |s| > 0 && s[0] == '[' && LinkTail(s, 1) == Some((p, q))
    ensures Link(m, s) == Anchor(m, s[p + 2..q], s[1..p]) + Link(m, s[q + 1..])
  {
  }

  lemma LinkTailSpan(text: string, href: string, c: string)
    requires ']' !in text && NoTerminator(text)
    requires ')' !in href && NoTerminator(href)
    ensures LinkTail("[" + text + "](" + href + ")" + c, 1)
         == Some((1 + |text|, 3 + |text| + |href|))
  {
    var t := "[" + text + "](" + href + ")" + c;
    var p := 1 + |text|;
    var q := p + 2 + |href|;
    assert LinkTail(t, 1) == LinkTail(t, p) by {
      forall k | 1 <= k < p ensures t[k] != ']' && !IsLineTerminator(t[k]) {
        assert t[k] == text[k - 1];
      }
      LinkTailSkip(t, 1, |text|);
    }
    assert CloseAt(t, ")", p + 2) == Some(q) by {
      forall k | p + 2 <= k < q ensures t[k] != ')' && !IsLineTerminator(t[k]) {
        assert t[k] == href[k - p - 2];
      }
      CloseAtSkip(t, ")", p + 2, |href|);
      assert t[q..q + 1] == ")";
      CloseAtHere(t, ")", q);
    }
    assert t[p] == ']' && t[p + 1] == '(';
    LinkTailHere(t, p);
  }

  lemma CloseAtHere(s: string, d: string, j: nat)
    requires j + |d| <= |s| && s[j..j + |d|] == d
    ensures CloseAt(s, d, j) == Some(j)
  {
    assert s[j..][..|d|] == s[j..j + |d|];
  }

  lemma LinkTailHere(s: string, j: nat)
    requires j + 2 < |s| && s[j] == ']' && s[j + 1] == '('
    requires CloseAt(s, ")", j + 2).Some?
    ensures LinkTail(s, j) == Some((j, CloseAt(s, ")", j + 2).value))
  {
    assert s[j..][..2] == "](";
  }

  // ---------------------------------------------------------------------
  // Unmatched delimiters stay literal

  lemma {:induction false} CountSplit(s: string, i: nat, c: char)
    requires i <= |s|
    ensures Count(s, c) == Count(s[..i], c) + Count(s[i..], c)
  {
    if i > 0 {
      CountSplit(s[1..], i - 1, c);
      assert s[1..][..i - 1] == s[..i][1..];
      assert s[1..][i - 1..] == s[i..];
    } else {
      assert s[i..] == s;
    }
  }

  lemma {:induction false} CountRun(d: string)
    requires |d| > 0 && forall i :: 0 <= i < |d| ==> d[i] == d[0]
    ensures Count(d, d[0]) == |d|
  {
    if |d| > 1 {
      CountRun(d[1..]);
      assert d[1..][0] == d[0];
    }
  }

  /** A match of `d(.*?)d` uses two copies of the delimiter. */
  lemma PairNeedsTwoDelimiters(s: string, d: string)
    requires |d| > 0 && forall i :: 0 <= i < |d| ==> d[i] == d[0]
    requires PairAt(s, d).Some?
    ensures Count(s, d[0]) >= 2 * |d|
  {
    var k := PairAt(s, d).value;
    CountRun(d);
    CountSplit(s, k, d[0]);
    CountSplit(s[..k], |d|, d[0]);
    assert s[..k][..|d|] == d;
    CountSplit(s[k..], |d|, d[0]);
    CloseAtSound(s, d, |d|);
    assert s[k..][..|d|] == d;
  }

  lemma {:induction false} PairsUnmatched(s: string, d: string, open: string, close: string)
    requires |d| > 0 && forall i :: 0 <= i < |d| ==> d[i] == d[0]
    requires Count(s, d[0]) < 2 * |d|
    ensures ReplacePairs(s, d, open, close) == s
  {
    if s != [] {
      if PairAt(s, d).Some? {
        PairNeedsTwoDelimiters(s, d);
      }
      PairsUnmatched(s[1..], d, open, close);
      assert s == [s[0]] + s[1..];
    }
  }

  /** Fewer than four asterisks: no bold span, the text is unchanged. */
  lemma BoldUnmatched(m: Markup, s: string)
    requires Count(s, '*') < 4
    ensures Bold(m, s) == s
  {
    PairsUnmatched(s, "**", m.boldOpen, m.boldClose);
  }

  /** Fewer than two underscores: no italic span, the text is unchanged. */
  lemma ItalicUnmatched(m: Markup, s: string)
    requires Count(s, '_') < 2
    ensures Italic(m, s) == s
  {
    PairsUnmatched(s, "_", m.italicOpen, m.italicClose);
  }

  /** A text lacking one of the four link characters has no link. */
  lemma {:induction false} LinkUnmatched(m: Markup, s: string)
    requires '[' !in s || ']' !in s || '(' !in s || ')' !in s
    ensures Link(m, s) == s
  {
    if s != [] {
      LinkUnmatched(m, s[1..]);
      assert s == [s[0]] + s[1..];
    }
  }

  /** Text without `*`, `_` and `[` comes back from the inline pass as it
      went in. */
  lemma InlinePlain(m: Markup, s: string)
    requires '*' !in s && '_' !in s && '[' !in s
    ensures Inline(m, s) == s
  {
    CountZero(s, '*');
    BoldUnmatched(m, s);
    CountZero(s, '_');
    ItalicUnmatched(m, s);
    LinkUnmatched(m, s);
  }

  // ---------------------------------------------------------------------
  // Consequences of the fixed order and of the cascade

  /** The markup the component writes reacts to none of the later passes. */
  lemma TagsInert()
    ensures Inert(Tags)
  {
    StrongQuiet();
    StrongCloseQuiet();
    EmQuiet();
    assert Quiet("</em>");
  }

  // The verifier evaluates `Quiet` on a literal only when the literal is
  // short, so each tag below is checked in pieces of at most five characters
  // that `QuietConcat` puts back together.

  lemma StrongQuiet()
    ensures Quiet("<strong class=\"font-bold\">")
  {
    var a, b, c, d, e := "<stro", "ng cl", "ass=\"", "font-", "bold\">";
    assert Quiet(a) && Quiet(b) && Quiet(c) && Quiet(d) && Quiet(e);
    QuietConcat(a, b);
    QuietConcat(a + b, c);
    QuietConcat(a + b + c, d);
    QuietConcat(a + b + c + d, e);
    assert a + b + c + d + e == "<strong class=\"font-bold\">";
  }

  lemma StrongCloseQuiet()
    ensures Quiet("</strong>")
  {
    var a, b := "</str", "ong>";
    assert Quiet(a) && Quiet(b);
    QuietConcat(a, b);
    assert a + b == "</strong>";
  }

  lemma EmQuiet()
    ensures Quiet("<em class=\"italic\">")
  {
    var a, b, c, d := "<em c", "lass=", "\"ital", "ic\">";
    assert Quiet(a) && Quiet(b) && Quiet(c) && Quiet(d);
    QuietConcat(a, b);
    QuietConcat(a + b, c);
    QuietConcat(a + b + c, d);
    assert a + b + c + d == "<em class=\"italic\">";
  }

  lemma NoTerminatorAppend(a: string, b: string)
    requires NoTerminator(a) && NoTerminator(b)
    ensures NoTerminator(a + b)
  {
    forall k | 0 <= k < |a + b| ensures !IsLineTerminator((a + b)[k]) {
      if k >= |a| { assert (a + b)[k] == b[k - |a|]; }
    }
  }

  /** Italic runs before link, so an underscore pair inside a link address is
      turned into italic markup that ends up inside the href attribute:
      `[text](x_y_z)` becomes an anchor whose address holds the italic markup
      around y. */
  lemma UnderscoreInLinkAddress(m: Markup, text: string, x: string, y: string, z: string)
    requires Inert(m)
    requires '*' !in text + x + y + z && '_' !in text + x + y + z
    requires ']' !in text && ')' !in x + y + z
    requires NoTerminator(text) && NoTerminator(x) && NoTerminator(y) && NoTerminator(z)
    ensures Inline(m, "[" + text + "](" + x + "_" + y + "_" + z + ")")
         == Anchor(m, x + m.italicOpen + y + m.italicClose + z, text)
  {
    var s := "[" + text + "](" + x + "_" + y + "_" + z + ")";
    assert '*' !in s;
    CountZero(s, '*');
    BoldUnmatched(m, s);
    ItalicInAddress(m, text, x, y, z);
    LinkAroundItalic(m, text, x, y, z);
  }

  /** With the component's markup: the em element sits inside the address. */
  lemma EmInsideHref(text: string, x: string, y: string, z: string)
    requires '*' !in text + x + y + z && '_' !in text + x + y + z
    requires ']' !in text && ')' !in x + y + z
    requires NoTerminator(text) && NoTerminator(x) && NoTerminator(y) && NoTerminator(z)
    ensures Inline(Tags, "[" + text + "](" + x + "_" + y + "_" + z + ")")
         == Anchor(Tags, x + "<em class=\"italic\">" + y + "</em>" + z, text)
  {
    TagsInert();
    UnderscoreInLinkAddress(Tags, text, x, y, z);
  }

  lemma ItalicInAddress(m: Markup, text: string, x: string, y: string, z: string)
    requires '_' !in text + x + y + z && NoTerminator(y)
    ensures Italic(m, "[" + text + "](" + x + "_" + y + "_" + z + ")")
         == "[" + text + "](" + (x + m.italicOpen + y + m.italicClose + z) + ")"
  {
    var s := "[" + text + "](" + x + "_" + y + "_" + z + ")";
    var a, c := "[" + text + "](" + x, z + ")";
    assert '_' !in c;
    CountZero(c, '_');
    calc {
      Italic(m, s);
      { assert s == a + "_" + y + "_" + c; }
      Italic(m, a + "_" + y + "_" + c);
      { ItalicSpan(m, a, y, c); }
      a + m.italicOpen + y + m.italicClose + Italic(m, c);
      { ItalicUnmatched(m, c); }
      a + m.italicOpen + y + m.italicClose + c;
    }
    assert a + m.italicOpen + y + m.italicClose + c
        == "[" + text + "](" + (x + m.italicOpen + y + m.italicClose + z) + ")";
  }

  lemma AddressWithItalic(m: Markup, x: string, y: string, z: string)
    requires Inert(m)
    requires ')' !in x + y + z
    requires NoTerminator(x) && NoTerminator(y) && NoTerminator(z)
    ensures NoTerminator(x + m.italicOpen + y + m.italicClose + z)
    ensures ')' !in x + m.italicOpen + y + m.italicClose + z
  {
    QuietMeans(m.italicOpen);
    QuietMeans(m.italicClose);
    NoTerminatorAppend(x, m.italicOpen);
    NoTerminatorAppend(x + m.italicOpen, y);
    NoTerminatorAppend(x + m.italicOpen + y, m.italicClose);
    NoTerminatorAppend(x + m.italicOpen + y + m.italicClose, z);
  }

  lemma LinkAroundItalic(m: Markup, text: string, x: string, y: string, z: string)
    requires Inert(m)
    requires ']' !in text && ')' !in x + y + z
    requires NoTerminator(text) && NoTerminator(x) && NoTerminator(y) && NoTerminator(z)
    ensures Link(m, "[" + text + "](" + (x + m.italicOpen + y + m.italicClose + z) + ")")
         == Anchor(m, x + m.italicOpen + y + m.italicClose + z, text)
  {
    AddressWithItalic(m, x, y, z);
    LinkWhole(m, text, x + m.italicOpen + y + m.italicClose + z);
  }

  /** A text that is one link and nothing else. */
  lemma LinkWhole(m: Markup, text: string, href: string)
    requires ']' !in text && NoTerminator(text)
    requires ')' !in href && NoTerminator(href)
    ensures Link(m, "[" + text + "](" + href + ")") == Anchor(m, href, text)
  {
    assert "[" + text + "](" + href + ")" == "[" + text + "](" + href + ")" + "";
    LinkSpan(m, text, href, "");
  }

  /** The text group backtracks past a `]` that no `(` follows: in
      `[a]b](c)` the anchor's text is `a]b`. */
  lemma LinkBacktracks(m: Markup)
    ensures Link(m, "[a]b](c)") == Anchor(m, "c", "a]b")
  {
    var s := "[a]b](c)";
    assert s[1..][..2][0] == 'a' && s[2..][..2][1] == 'b' && s[3..][..2][0] == 'b';
    assert s[6..][..1][0] == 'c' && s[7..][..1] == ")";
    assert s[4..][..2] == "](";
    assert CloseAt(s, ")", 6) == Some(7);
    assert LinkTail(s, 1) == Some((4, 7));
    assert s[8..] == [];
  }

  /** Near misses of the prefixes are paragraphs: `#` followed by anything
      but a space or another `#` (`#Title`) and `-` not followed by a space. */
  lemma NearMissIsParagraph(m: Markup, c: char, rest: string)
    requires c == '#' || c == '-'
    requires rest != [] && rest[0] != ' ' && rest[0] != '#'
    ensures ClassifyLine(m, [c] + rest) == Paragraph(Inline(m, [c] + rest))
  {
    var line := [c] + rest;
    assert line[1] == rest[0];
  }

  /** A line of white space is a paragraph holding that white space, not a
      break: only the exactly empty line is a break. */
  lemma WhitespaceLine(m: Markup, line: string)
    requires line != [] && AllSpace(line)
    ensures ClassifyLine(m, line) == Paragraph(line)
  {
    assert !IsJsSpace('*') && !IsJsSpace('_') && !IsJsSpace('[');
    assert line[0] != '#' && line[0] != '-';
    InlinePlain(m, line);
  }

  /** A paragraph `x**b**y_i_z` without other markup characters: bold is
      applied, then italic; nothing else changes. */
  lemma InlineBoldThenItalic(m: Markup, x: string, b: string, y: string, i: string, z: string)
    requires Inert(m)
    requires '*' !in x + b + y + i + z && '_' !in x + b + y + i + z && '[' !in x + b + y + i + z
    requires NoTerminator(b) && NoTerminator(i)
    ensures Inline(m, x + "**" + b + "**" + y + "_" + i + "_" + z)
         == x + m.boldOpen + b + m.boldClose + y + m.italicOpen + i + m.italicClose + z
  {
    var a := x + m.boldOpen + b + m.boldClose + y;
    var out := a + m.italicOpen + i + m.italicClose + z;
    var s := x + "**" + b + "**" + y + "_" + i + "_" + z;
    QuietMeans(m.boldOpen);
    QuietMeans(m.boldClose);
    QuietMeans(m.italicOpen);
    QuietMeans(m.italicClose);
    calc {
      Inline(m, s);
      Link(m, Italic(m, Bold(m, s)));
      { assert s == x + "**" + b + "**" + (y + "_" + i + "_" + z);
        BoldStage(m, x, b, y + "_" + i + "_" + z);
        assert x + m.boldOpen + b + m.boldClose + (y + "_" + i + "_" + z) == a + "_" + i + "_" + z; }
      Link(m, Italic(m, a + "_" + i + "_" + z));
      { ItalicStage(m, a, i, z); }
      Link(m, out);
      { assert '[' !in out;
        LinkUnmatched(m, out); }
      out;
    }
  }

  lemma BoldStage(m: Markup, x: string, b: string, c: string)
    requires '*' !in x + b + c && NoTerminator(b)
    ensures Bold(m, x + "**" + b + "**" + c) == x + m.boldOpen + b + m.boldClose + c
  {
    BoldSpan(m, x, b, c);
    CountZero(c, '*');
    BoldUnmatched(m, c);
  }

  lemma ItalicStage(m: Markup, a: string, i: string, z: string)
    requires '_' !in a + i + z && NoTerminator(i)
    ensures Italic(m, a + "_" + i + "_" + z) == a + m.italicOpen + i + m.italicClose + z
  {
    ItalicSpan(m, a, i, z);
    CountZero(z, '_');
    ItalicUnmatched(m, z);
  }

  /** A heading line, an empty line and a paragraph with bold and italic text
      (as in `# Title\n\nSome **bold** and _italic_ text`) render to a
      heading with the raw title, a break, and the paragraph with its bold
      and italic markup in the original order. */
  lemma RenderHeadingBreakParagraph(m: Markup, title: string, x: string, b: string, y: string, i: string, z: string)
    requires Inert(m)
    requires '\n' !in title + x + b + y + i + z
    requires '*' !in x + b + y + i + z && '_' !in x + b + y + i + z && '[' !in x + b + y + i + z
    requires NoTerminator(b) && NoTerminator(i)
    requires x == "" || (x[0] != '#' && x[0] != '-')
    ensures Render(m, "# " + title + "\n\n" + x + "**" + b + "**" + y + "_" + i + "_" + z)
         == [Heading1(title), LineBreak,
             Paragraph(x + m.boldOpen + b + m.boldClose + y + m.italicOpen + i + m.italicClose + z)]
  {
    var p := x + "**" + b + "**" + y + "_" + i + "_" + z;
    var out := x + m.boldOpen + b + m.boldClose + y + m.italicOpen + i + m.italicClose + z;
    var lines := ["# " + title, "", p];
    assert "# " + title + "\n\n" + x + "**" + b + "**" + y + "_" + i + "_" + z
        == "# " + title + "\n\n" + p;
    calc {
      Render(m, "# " + title + "\n\n" + p);
      { ThreeLines("# " + title, p); }
      RenderLines(m, lines);
      [ClassifyLine(m, lines[0])] + ([ClassifyLine(m, lines[1])] + RenderLines(m, lines[2..]));
      { assert ClassifyLine(m, lines[0]) == Heading1(title);
        ParagraphLine(m, x, b, y, i, z); }
      [Heading1(title), LineBreak, Paragraph(out)];
    }
  }

  lemma ThreeLines(h: string, p: string)
    requires '\n' !in h && '\n' !in p
    ensures Split(h + "\n\n" + p, '\n') == [h, "", p]
  {
    assert h + "\n\n" + p == h + ['\n'] + ("" + ['\n'] + p);
    SplitAppend(h, "" + ['\n'] + p, '\n');
    SplitAppend("", p, '\n');
    SplitNoSep(h, '\n');
    SplitNoSep(p, '\n');
  }

  lemma ParagraphLine(m: Markup, x: string, b: string, y: string, i: string, z: string)
    requires Inert(m)
    requires '*' !in x + b + y + i + z && '_' !in x + b + y + i + z && '[' !in x + b + y + i + z
    requires NoTerminator(b) && NoTerminator(i)
    requires x == "" || (x[0] != '#' && x[0] != '-')
    ensures ClassifyLine(m, x + "**" + b + "**" + y + "_" + i + "_" + z)
         == Paragraph(x + m.boldOpen + b + m.boldClose + y + m.italicOpen + i + m.italicClose + z)
  {
    var p := x + "**" + b + "**" + y + "_" + i + "_" + z;
    assert p[0] == (if x == "" then '*' else x[0]);
    InlineBoldThenItalic(m, x, b, y, i, z);
  }
}
