/**
 * scripts/convert-md-to-json.js, first half: every ".md" entry of the
 * articles directory is parsed, validated and normalised into an article
 * and an index entry; both lists are then sorted newest first.
 */
module Convert {
  import opened Wrappers
  import opened JsText
  import opened Markup
  import opened DateSort
  import Decimal

  /**
   * Front-matter attributes after YAML parsing. A text attribute that is
   * absent or null is None. `date` is the already-parsed point in time;
   * None when the attribute is absent, null or empty.
   */
  datatype Attributes = Attributes(
    title: Option<string>,
    date: Option<int>,
    img: Option<string>,
    category: Option<string>,
    tags: Option<string>,
    priority: Option<string>,
    changefreq: Option<string>)

  /** What `frontMatter(content)` returns. */
  datatype FrontMatter = FrontMatter(attributes: Attributes, body: string)

  /** One directory entry: its name, and what front-matter made of its text (None: it threw). */
  datatype Entry = Entry(name: BaseName, parsed: Option<FrontMatter>)

  /** The libraries `slugify` and `marked`, as functions of their input. */
  datatype Libraries = Libraries(slugify: string -> string, marked: string -> string)

  datatype Article = Article(
    id: string,
    title: string,
    img: string,
    link: string,
    createDate: int,
    category: string,
    tags: seq<string>,
    contentMD: string,
    contentHtml: string,
    contentText: string,
    priority: string,
    changefreq: string)

  /** The article without `contentMD`, `contentHtml`, `priority` and `changefreq`. */
  datatype IndexEntry = IndexEntry(
    id: string,
    title: string,
    img: string,
    link: string,
    createDate: int,
    category: string,
    tags: seq<string>,
    contentText: string)

  /** Why an ".md" entry produced nothing (what the warnings name). */
  datatype Skip = MissingField(file: string) | Unparsable(file: string)

  function ArticleDate(a: Article): int { a.createDate }

  function EntryDate(e: IndexEntry): int { e.createDate }

  /** The index entry pushed beside an article: the same fields, less the content and sitemap ones. */
  function Project(a: Article): IndexEntry
  {
    IndexEntry(a.id, a.title, a.img, a.link, a.createDate, a.category, a.tags, a.contentText)
  }

  /** JavaScript truthiness of an optional string attribute. */
  predicate Truthy(v: Option<string>) {
    v.Some? && v.value != ""
  }

  /** `v || d`. */
  function OrDefault(v: Option<string>, d: string): string {
    if Truthy(v) then v.value else d
  }

  /** `pieces` are the comma-free pieces that, joined with commas, give back `text`. */
  predicate IsCommaPieces(pieces: seq<string>, text: string) {
    Join(pieces, ',') == text && forall i :: 0 <= i < |pieces| ==> ',' !in pieces[i]
  }

  /** `tags` are the pieces, each trimmed, in order. */
  predicate IsTrimmedPieces(tags: seq<string>, pieces: seq<string>) {
    |tags| == |pieces| && forall i :: 0 <= i < |pieces| ==> tags[i] == Trim(pieces[i])
  }

  /** Trimming comma-free pieces leaves them comma-free. */
  lemma TrimmedPiecesCommaFree(tags: seq<string>, pieces: seq<string>)
    requires IsTrimmedPieces(tags, pieces)
    requires forall i :: 0 <= i < |pieces| ==> ',' !in pieces[i]
    ensures forall i :: 0 <= i < |tags| ==> ',' !in tags[i]
  {
    forall i | 0 <= i < |tags| ensures ',' !in tags[i] {
      TrimIsSlice(pieces[i]);
    }
  }

  /** `tags ? tags.split(',').map(tag => tag.trim()) : []`. */
  function Tags(raw: Option<string>): (tags: seq<string>)
    ensures !Truthy(raw) ==> tags == []
    ensures Truthy(raw) ==> |tags| == Occurrences(raw.value, ',') + 1
    ensures forall i :: 0 <= i < |tags| ==> IsTrimmed(tags[i]) && ',' !in tags[i]
    ensures Truthy(raw) ==> exists pieces :: IsCommaPieces(pieces, raw.value) && IsTrimmedPieces(tags, pieces)
  {
    if !Truthy(raw) then []
    else
      var pieces := Split(raw.value, ',');
      JoinSplit(raw.value, ',');
      var tags := Apply(Trim, pieces);
      assert IsCommaPieces(pieces, raw.value) && IsTrimmedPieces(tags, pieces);
      TrimmedPiecesCommaFree(tags, pieces);
      tags
  }

  /** The tags are the trimmed comma-separated pieces of the attribute, for whichever such pieces one names. */
  lemma TagsOfPieces(raw: Option<string>, pieces: seq<string>)
    requires Truthy(raw) && IsCommaPieces(pieces, raw.value)
    ensures IsTrimmedPieces(Tags(raw), pieces)
  {
    assert pieces != [];
    SplitJoin(pieces, ',');
  }

  /** Ids are six decimal digits, the first not zero. */
  predicate IsArticleId(id: string) {
    |id| == 6 && Decimal.IsCanonical(id)
  }

  /** A value of `Math.random()`. */
  type Draw = r: real | 0.0 <= r < 1.0

  /** `Math.floor(100000 + Math.random() * 900000).toString()` for the draw `r`, in exact arithmetic rather than doubles. */
  function GenerateArticleId(r: Draw): (id: string)
    ensures IsArticleId(id)
    ensures 100000 <= Decimal.Value(id) <= 999999
  {
    var n := (100000.0 + r * 900000.0).Floor;
    assert 100000 <= n < 1000000;
    Decimal.ToDecimalLength(n, 5);
    Decimal.ValueOfToDecimal(n);
    Decimal.ToDecimal(n)
  }

  /** A document is kept only when it has a truthy title and a date. */
  predicate HasRequired(a: Attributes) {
    Truthy(a.title) && a.date.Some?
  }

  /** What every article satisfies, whatever its input. */
  predicate WellFormed(a: Article) {
    && IsArticleId(a.id)
    && a.title != ""
    && |a.contentText| <= ReadMoreLength
    && IsTrimmed(a.contentText)
    && NoTag(a.contentText)
    && (forall i :: 0 <= i < |a.tags| ==> IsTrimmed(a.tags[i]) && ',' !in a.tags[i])
    && a.priority != ""
    && a.changefreq != ""
  }

  /** The article built from an accepted document and the random draw `r`. */
  function Normalize(fm: FrontMatter, r: Draw, lib: Libraries): (article: Article)
    requires HasRequired(fm.attributes)
    ensures WellFormed(article)
    ensures article.title == fm.attributes.title.value
    ensures article.createDate == fm.attributes.date.value
    ensures article.contentMD == fm.body
    ensures article.id == GenerateArticleId(r)
    ensures article.link == lib.slugify(fm.attributes.title.value)
    ensures article.contentHtml == lib.marked(fm.body)
    ensures article.contentText == Excerpt(article.contentHtml)
    ensures article.tags == Tags(fm.attributes.tags)
    ensures Truthy(fm.attributes.img) ==> article.img == fm.attributes.img.value
    ensures !Truthy(fm.attributes.img) ==> article.img == ""
    ensures Truthy(fm.attributes.category) ==> article.category == fm.attributes.category.value
    ensures !Truthy(fm.attributes.category) ==> article.category == ""
    ensures Truthy(fm.attributes.priority) ==> article.priority == fm.attributes.priority.value
    ensures !Truthy(fm.attributes.priority) ==> article.priority == "0.5"
    ensures Truthy(fm.attributes.changefreq) ==> article.changefreq == fm.attributes.changefreq.value
    ensures !Truthy(fm.attributes.changefreq) ==> article.changefreq == "daily"
  {
    var attrs := fm.attributes;
    var html := lib.marked(fm.body);
    Article(GenerateArticleId(r), attrs.title.value, OrDefault(attrs.img, ""),
            lib.slugify(attrs.title.value), attrs.date.value, OrDefault(attrs.category, ""),
            Tags(attrs.tags), fm.body, html, Excerpt(html),
            OrDefault(attrs.priority, "0.5"), OrDefault(attrs.changefreq, "daily"))
  }

  /** `path.extname(name) === '.md'`, in the closed form that `ExtnameIsMd` proves equal to it. */
  predicate IsMarkdown(e: Entry) {
    var n := |e.name|;
    n > 3 && e.name[n - 3] == '.' && e.name[n - 2] == 'm' && e.name[n - 1] == 'd'
  }

  predicate IsAccepted(e: Entry) {
    IsMarkdown(e) && e.parsed.Some? && HasRequired(e.parsed.value.attributes)
  }

  /** The accepted entries, in directory order. */
  function Accepted(entries: seq<Entry>): (accepted: seq<Entry>)
    ensures |accepted| <= |entries|
    ensures forall k :: 0 <= k < |accepted| ==> IsAccepted(accepted[k])
    ensures forall e :: multiset(accepted)[e] == if IsAccepted(e) then multiset(entries)[e] else 0
  {
    if entries == [] then []
    else
      var n := |entries| - 1;
      var last := entries[n];
      assert entries == entries[..n] + [last];
      Accepted(entries[..n]) + (if IsAccepted(last) then [last] else [])
  }

  /** The ".md" entries, in directory order. */
  function MarkdownEntries(entries: seq<Entry>): seq<Entry> {
    if entries == [] then []
    else
      var last := entries[|entries| - 1];
      MarkdownEntries(entries[..|entries| - 1]) + (if IsMarkdown(last) then [last] else [])
  }

  /**
   * The articles collected before sorting: one per accepted entry, in
   * directory order, the k-th taking the k-th value `draws(k)` of Math.random.
   */
  function Assemble(entries: seq<Entry>, draws: nat -> Draw, lib: Libraries): seq<Article>
  {
    if entries == [] then []
    else
      var before := Assemble(entries[..|entries| - 1], draws, lib);
      var last := entries[|entries| - 1];
      before + (if IsAccepted(last) then [Normalize(last.parsed.value, draws(|before|), lib)] else [])
  }

  /** The warning an entry produces: none unless it is an ".md" entry that yields no article. */
  function SkipOf(e: Entry): seq<Skip> {
    if !IsMarkdown(e) then []
    else if e.parsed.None? then [Unparsable(e.name)]
    else if !HasRequired(e.parsed.value.attributes) then [MissingField(e.name)]
    else []
  }

  /** The warnings, in directory order. */
  function Skips(entries: seq<Entry>): seq<Skip> {
    if entries == [] then [] else Skips(entries[..|entries| - 1]) + SkipOf(entries[|entries| - 1])
  }

  /** Normalises the accepted documents in order, the k-th with draw `draws(k)`. */
  function NormalizeAll(accepted: seq<Entry>, draws: nat -> Draw, lib: Libraries): (articles: seq<Article>)
    requires forall j :: 0 <= j < |accepted| ==> IsAccepted(accepted[j])
    ensures |articles| == |accepted|
  {
    if accepted == [] then []
    else
      var n := |accepted| - 1;
      assert IsAccepted(accepted[n]);
      NormalizeAll(accepted[..n], draws, lib) + [Normalize(accepted[n].parsed.value, draws(n), lib)]
  }

  /** The k-th article is the k-th accepted document `e` normalised with the k-th draw. */
  lemma {:induction false} NormalizeAllAt(accepted: seq<Entry>, draws: nat -> Draw, lib: Libraries, k: nat, e: Entry)
    requires forall j :: 0 <= j < |accepted| ==> IsAccepted(accepted[j])
    requires k < |accepted| && accepted[k] == e
    ensures IsAccepted(e)
    ensures NormalizeAll(accepted, draws, lib)[k] == Normalize(e.parsed.value, draws(k), lib)
    decreases |accepted|
  {
    var n := |accepted| - 1;
    if k < n {
      var prefix := accepted[..n];
      assert prefix[k] == e;
      NormalizeAllAt(prefix, draws, lib, k, e);
    }
  }

  /** Collecting is filtering out the rejected entries, then normalising the rest with the draws in order. */
  lemma {:induction false} AssembleIsAcceptedNormalized(entries: seq<Entry>, draws: nat -> Draw, lib: Libraries)
    ensures Assemble(entries, draws, lib) == NormalizeAll(Accepted(entries), draws, lib)
  {
    if entries != [] {
      var n := |entries| - 1;
      var before := Assemble(entries[..n], draws, lib);
      var accBefore := Accepted(entries[..n]);
      AssembleIsAcceptedNormalized(entries[..n], draws, lib);
      assert |before| == |accBefore|;
      if IsAccepted(entries[n]) {
        var acc := Accepted(entries);
        assert acc == accBefore + [entries[n]];
        assert acc[..|acc| - 1] == accBefore;
        assert acc[|acc| - 1] == entries[n];
        assert NormalizeAll(acc, draws, lib)
          == NormalizeAll(accBefore, draws, lib) + [Normalize(entries[n].parsed.value, draws(|before|), lib)];
      } else {
        assert Accepted(entries) == accBefore;
      }
    }
  }

  /** Every ".md" entry yields exactly one article or one warning. */
  lemma {:induction false} AssembleCount(entries: seq<Entry>, draws: nat -> Draw, lib: Libraries)
    ensures |Assemble(entries, draws, lib)| + |Skips(entries)| == |MarkdownEntries(entries)|
  {
    if entries != [] {
      AssembleCount(entries[..|entries| - 1], draws, lib);
    }
  }

  /** Every collected article is well formed. */
  lemma {:induction false} AssembleWellFormed(entries: seq<Entry>, draws: nat -> Draw, lib: Libraries)
    ensures forall a :: a in Assemble(entries, draws, lib) ==> WellFormed(a)
  {
    if entries != [] {
      AssembleWellFormed(entries[..|entries| - 1], draws, lib);
    }
  }

  /**
   * The body of the loop of `parseMarkdownFiles` for one directory entry:
   * the article it yields, if any, and the warning it logs, if any.
   */
  method ConvertEntry(entry: Entry, draw: Draw, lib: Libraries) returns (article: Option<Article>, skip: seq<Skip>)
    ensures article.Some? <==> IsAccepted(entry)
    ensures article.Some? ==> article.value == Normalize(entry.parsed.value, draw, lib)
    ensures skip == SkipOf(entry)
  {
    article, skip := None, [];
    ExtnameIsMd(entry.name);
    var n := |entry.name|;
    assert n > 3 ==> entry.name[n - 3..] == [entry.name[n - 3], entry.name[n - 2], entry.name[n - 1]];
    if Extname(entry.name) != ".md" {
      return;
    }
    match entry.parsed {
      case None =>
        skip := [Unparsable(entry.name)];
      case Some(fm) =>
        var attrs := fm.attributes;
        if !Truthy(attrs.title) || attrs.date.None? {
          skip := [MissingField(entry.name)];
          return;
        }
        article := Some(Normalize(fm, draw, lib));
    }
  }

  /** What the collecting loop has built once it has seen the first `i` entries. */
  predicate Collected(entries: seq<Entry>, draws: nat -> Draw, lib: Libraries, i: nat,
                      articles: seq<Article>, indexList: seq<IndexEntry>, skipped: seq<Skip>)
  {
    && i <= |entries|
    && articles == Assemble(entries[..i], draws, lib)
    && indexList == Apply(Project, articles)
    && skipped == Skips(entries[..i])
  }

  /** One turn of the collecting loop: entry `i` is converted and its outcome appended. */
  method CollectEntry(entries: seq<Entry>, draws: nat -> Draw, lib: Libraries, i: nat,
                      articles: seq<Article>, indexList: seq<IndexEntry>, skipped: seq<Skip>)
    returns (articles': seq<Article>, indexList': seq<IndexEntry>, skipped': seq<Skip>)
    requires i < |entries| && Collected(entries, draws, lib, i, articles, indexList, skipped)
    ensures Collected(entries, draws, lib, i + 1, articles', indexList', skipped')
  {
    var article, skip := ConvertEntry(entries[i], draws(|articles|), lib);
    assert entries[..i + 1][..i] == entries[..i];
    skipped' := skipped + skip;
    if article.Some? {
      articles' := articles + [article.value];
      indexList' := indexList + [Project(article.value)];
      ApplySnoc(Project, articles, article.value);
    } else {
      articles', indexList' := articles, indexList;
    }
  }

  /**
   * The loop of `parseMarkdownFiles`: every entry in directory order, with
   * the warnings it logs; `draws(k)` is the k-th value Math.random returns.
   */
  method CollectArticles(entries: seq<Entry>, draws: nat -> Draw, lib: Libraries)
    returns (articles: seq<Article>, indexList: seq<IndexEntry>, skipped: seq<Skip>)
    ensures articles == Assemble(entries, draws, lib)
    ensures indexList == Apply(Project, articles)
    ensures skipped == Skips(entries)
  {
    articles, indexList, skipped := [], [], [];
    for i := 0 to |entries|
      invariant Collected(entries, draws, lib, i, articles, indexList, skipped)
    {
      articles, indexList, skipped := CollectEntry(entries, draws, lib, i, articles, indexList, skipped);
    }
    assert entries[..|entries|] == entries;
  }

  /** `parseMarkdownFiles`: collect, then sort both lists in place, newest first. */
  method ParseMarkdownFiles(entries: seq<Entry>, draws: nat -> Draw, lib: Libraries)
    returns (articles: seq<Article>, indexList: seq<IndexEntry>, skipped: seq<Skip>)
    ensures articles == SortByDate(Assemble(entries, draws, lib), ArticleDate)
    ensures multiset(articles) == multiset(Assemble(entries, draws, lib))
    ensures Descending(articles, ArticleDate) && Descending(indexList, EntryDate)
    ensures |indexList| == |articles|
    ensures forall i :: 0 <= i < |articles| ==> indexList[i] == Project(articles[i])
    ensures forall a :: a in articles ==> WellFormed(a)
    ensures skipped == Skips(entries)
  {
    articles, indexList, skipped := CollectArticles(entries, draws, lib);
    ghost var collected := articles;
    articles := SortByDate(articles, ArticleDate);
    indexList := SortByDate(indexList, EntryDate);
    SortByDateCommutes(Project, collected, ArticleDate, EntryDate);
    SortByDatePermutes(collected, ArticleDate);
    SortByDateDescending(collected, ArticleDate);
    SortByDateDescending(Apply(Project, collected), EntryDate);
    AssembleWellFormed(entries, draws, lib);
    forall a | a in articles ensures WellFormed(a) {
      assert a in multiset(collected);
    }
  }
}
