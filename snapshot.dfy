/**
 * scripts/convert-md-to-json.js, `saveResults`: the counter stored under
 * SYSTEM_INDEX_NUM and the flat import map that import-to-kv.js uploads,
 * keyed by article id plus two reserved keys.
 */
module Snapshot {
  import opened Wrappers
  import opened Convert
  import opened JsObject
  import Decimal

  const ListKey: string := "SYSTEM_INDEX_LIST"
  const NumKey: string := "SYSTEM_INDEX_NUM"

  /** The value taken as the largest id when there are no articles. */
  const EmptyMaxId: nat := 100000

  /** The values of the import map. */
  datatype Record = IndexList(entries: seq<IndexEntry>) | IndexNum(n: int) | ArticleRecord(article: Article)

  /** Every id was made by `generateArticleId`. */
  predicate IdsValid(articles: seq<Article>) {
    forall i :: 0 <= i < |articles| ==> IsArticleId(articles[i].id)
  }

  /** A six-digit id lies in [100000, 999999] and is an array index. */
  lemma ArticleIdRange(id: string)
    requires IsArticleId(id)
    ensures 100000 <= Decimal.Value(id) <= 999999
    ensures IsArrayIndex(id)
  {
    Decimal.ValueBounds(id);
    assert Decimal.Pow10(5) == 100000 by {
      assert Decimal.Pow10(2) == 100;
    }
  }

  /** `parseInt(a.id)`. */
  function IdNumber(a: Article): nat
    requires IsArticleId(a.id)
  {
    Decimal.Value(a.id)
  }

  /** `Math.max(...articles.map(a => parseInt(a.id)))` for a non-empty list. */
  function MaxId(articles: seq<Article>): (m: nat)
    requires articles != [] && IdsValid(articles)
    ensures forall i :: 0 <= i < |articles| ==> IdNumber(articles[i]) <= m
    ensures exists i :: 0 <= i < |articles| && IdNumber(articles[i]) == m
  {
    if |articles| == 1 then IdNumber(articles[0])
    else
      var rest := MaxId(articles[1..]);
      assert forall i :: 1 <= i < |articles| ==> articles[i] == articles[1..][i - 1];
      if IdNumber(articles[0]) >= rest then IdNumber(articles[0]) else rest
  }

  /** The counter: `maxId + 1`, where maxId is 100000 when there are no articles. */
  function NextIndexNum(articles: seq<Article>): (n: nat)
    requires IdsValid(articles)
    ensures forall i :: 0 <= i < |articles| ==> IdNumber(articles[i]) < n
    ensures articles == [] ==> n == EmptyMaxId + 1
    ensures articles != [] ==> exists i :: 0 <= i < |articles| && IdNumber(articles[i]) == n - 1
    ensures EmptyMaxId + 1 <= n <= 1000000
  {
    if articles == [] then EmptyMaxId + 1
    else
      var m := MaxId(articles);
      var i :| 0 <= i < |articles| && IdNumber(articles[i]) == m;
      ArticleIdRange(articles[i].id);
      m + 1
  }

  /** The object literal `{ SYSTEM_INDEX_LIST: indexList, SYSTEM_INDEX_NUM: n }`. */
  function Reserved(indexList: seq<IndexEntry>, n: int): (o: Object<Record>)
    ensures Valid(o)
    ensures o.keys == [ListKey, NumKey]
    ensures o.values == map[ListKey := IndexList(indexList), NumKey := IndexNum(n)]
  {
    var list := Assign(Empty(), ListKey, IndexList(indexList));
    AssignValid(Empty(), ListKey, IndexList(indexList));
    AssignValid(list, NumKey, IndexNum(n));
    Assign(list, NumKey, IndexNum(n))
  }

  /** `importData` after `importData[article.id] = article` for each article in order. */
  function AddArticles(base: Object<Record>, articles: seq<Article>): Object<Record> {
    if articles == [] then base
    else
      var last := articles[|articles| - 1];
      Assign(AddArticles(base, articles[..|articles| - 1]), last.id, ArticleRecord(last))
  }

  /** The import map `saveResults` builds. */
  function ImportData(articles: seq<Article>, indexList: seq<IndexEntry>): Object<Record>
    requires IdsValid(articles)
  {
    AddArticles(Reserved(indexList, NextIndexNum(articles)), articles)
  }

  /** The ids of the articles. */
  function Ids(articles: seq<Article>): set<string> {
    if articles == [] then {} else Ids(articles[..|articles| - 1]) + {articles[|articles| - 1].id}
  }

  lemma {:induction false} IdsMembers(articles: seq<Article>)
    ensures forall i :: 0 <= i < |articles| ==> articles[i].id in Ids(articles)
    ensures forall x :: x in Ids(articles) ==> exists i :: 0 <= i < |articles| && articles[i].id == x
  {
    if articles != [] {
      var n := |articles| - 1;
      IdsMembers(articles[..n]);
      assert forall i :: 0 <= i < n ==> articles[..n][i] == articles[i];
    }
  }

  lemma {:induction false} IdsValidPrefix(articles: seq<Article>, n: nat)
    requires IdsValid(articles) && n <= |articles|
    ensures IdsValid(articles[..n])
    ensures forall x :: x in Ids(articles[..n]) ==> IsArticleId(x)
  {
    assert forall j :: 0 <= j < n ==> articles[..n][j] == articles[j];
    IdsMembers(articles[..n]);
  }

  /** Position of the last article with the given id, or -1. */
  function LastWithId(articles: seq<Article>, id: string): (k: int)
    ensures -1 <= k < |articles|
    ensures 0 <= k ==> articles[k].id == id
    ensures forall j :: k < j < |articles| ==> articles[j].id != id
  {
    if articles == [] then -1
    else if articles[|articles| - 1].id == id then |articles| - 1
    else
      var k := LastWithId(articles[..|articles| - 1], id);
      assert forall j :: k < j < |articles| - 1 ==> articles[j] == articles[..|articles| - 1][j];
      k
  }

  /** Neither reserved key is made of digits, so neither is an array index or an id. */
  lemma ReservedKeysNotIds()
    ensures !IsArrayIndex(ListKey) && !IsArrayIndex(NumKey)
    ensures forall id :: IsArticleId(id) ==> id != ListKey && id != NumKey
  {
    assert !Decimal.IsDigit(ListKey[0]);
    assert !Decimal.IsDigit(NumKey[0]);
  }

  /** Assigning the articles keeps the object well formed and adds exactly their ids as keys. */
  lemma {:induction false} AddArticlesKeys(base: Object<Record>, articles: seq<Article>)
    requires Valid(base)
    ensures Valid(AddArticles(base, articles))
    ensures forall x :: x in AddArticles(base, articles).keys <==> x in base.keys || x in Ids(articles)
  {
    if articles != [] {
      var n := |articles| - 1;
      AddArticlesKeys(base, articles[..n]);
      AssignValid(AddArticles(base, articles[..n]), articles[n].id, ArticleRecord(articles[n]));
    }
  }

  /** The ids are created in front of the two reserved keys, which stay last. */
  lemma {:induction false} AddArticlesTail(base: Object<Record>, articles: seq<Article>)
    requires Valid(base) && base.keys == [ListKey, NumKey] && IdsValid(articles)
    ensures |AddArticles(base, articles).keys| >= 2
    ensures var keys := AddArticles(base, articles).keys;
      keys[|keys| - 2..] == [ListKey, NumKey]
  {
    if articles != [] {
      var n := |articles| - 1;
      IdsValidPrefix(articles, n);
      AddArticlesTail(base, articles[..n]);
      var prev := AddArticles(base, articles[..n]);
      ReservedKeysNotIds();
      ArticleIdRange(articles[n].id);
      if articles[n].id !in prev.keys {
        InsertIndexKeepsTail(prev.keys, articles[n].id);
      }
    }
  }

  /** Each id holds the last article with that id; every other key keeps its value. */
  lemma {:induction false} AddArticlesValues(base: Object<Record>, articles: seq<Article>, x: string)
    ensures x in Ids(articles) ==> LastWithId(articles, x) >= 0
    ensures x in base.values || x in Ids(articles) ==> x in AddArticles(base, articles).values
    ensures x in Ids(articles) ==>
      AddArticles(base, articles).values[x] == ArticleRecord(articles[LastWithId(articles, x)])
    ensures x !in Ids(articles) && x in base.values ==> AddArticles(base, articles).values[x] == base.values[x]
  {
    if articles != [] {
      var n := |articles| - 1;
      AddArticlesValues(base, articles[..n], x);
    }
  }

  /**
   * `saveResults` minus the file writes: the counter, then the import map
   * built from the literal with the reserved keys and one assignment per
   * article, in order.
   */
  method SaveResults(articles: seq<Article>, indexList: seq<IndexEntry>)
    returns (indexNum: int, importData: Object<Record>)
    requires IdsValid(articles)
    ensures indexNum == NextIndexNum(articles)
    ensures importData == ImportData(articles, indexList)
  {
    var maxId := if |articles| > 0 then MaxId(articles) else EmptyMaxId;
    indexNum := maxId + 1;
    importData := Reserved(indexList, indexNum);
    for i := 0 to |articles|
      invariant importData == AddArticles(Reserved(indexList, indexNum), articles[..i])
    {
      assert articles[..i + 1][..i] == articles[..i];
      importData := Assign(importData, articles[i].id, ArticleRecord(articles[i]));
    }
    assert articles[..|articles|] == articles;
  }

  /**
   * The import map's keys are the distinct article ids in ascending numeric
   * order followed by SYSTEM_INDEX_LIST and SYSTEM_INDEX_NUM.
   */
  lemma ImportDataKeys(articles: seq<Article>, indexList: seq<IndexEntry>)
    requires IdsValid(articles)
    ensures var keys := ImportData(articles, indexList).keys;
      && |keys| == |Ids(articles)| + 2
      && keys[|keys| - 2..] == [ListKey, NumKey]
      && (forall x :: x in keys <==> x == ListKey || x == NumKey || x in Ids(articles))
      && (forall i :: 0 <= i < |keys| - 2 ==> IsArticleId(keys[i]))
      && (forall i, j :: 0 <= i < j < |keys| - 2 ==> Decimal.Value(keys[i]) < Decimal.Value(keys[j]))
  {
    var base := Reserved(indexList, NextIndexNum(articles));
    AddArticlesKeys(base, articles);
    AddArticlesTail(base, articles);
    IdsValidPrefix(articles, |articles|);
    assert articles[..|articles|] == articles;
    ReservedKeysNotIds();
    KeyListShape(ImportData(articles, indexList).keys, Ids(articles));
  }

  /** A key list made of ids followed by the two reserved keys, as the enumeration order lists it. */
  lemma KeyListShape(keys: seq<string>, ids: set<string>)
    requires Ordered(keys) && Distinct(keys)
    requires |keys| >= 2 && keys[|keys| - 2..] == [ListKey, NumKey]
    requires forall x :: x in keys <==> x == ListKey || x == NumKey || x in ids
    requires forall x :: x in ids ==> IsArticleId(x)
    ensures |keys| == |ids| + 2
    ensures forall i :: 0 <= i < |keys| - 2 ==> IsArticleId(keys[i])
    ensures forall i, j :: 0 <= i < j < |keys| - 2 ==>
      IsArticleId(keys[i]) && IsArticleId(keys[j]) && Decimal.Value(keys[i]) < Decimal.Value(keys[j])
  {
    ReservedKeysNotIds();
    var n := |keys|;
    assert keys[n - 2] == ListKey && keys[n - 1] == NumKey;
    forall i | 0 <= i < n - 2 ensures IsArticleId(keys[i]) {
      assert keys[i] != keys[n - 2] && keys[i] != keys[n - 1];
    }
    forall i, j | 0 <= i < j < n - 2 ensures Decimal.Value(keys[i]) < Decimal.Value(keys[j]) {
      ArticleIdRange(keys[j]);
    }
    DistinctCount(keys, ids + {ListKey, NumKey});
    assert ListKey !in ids && NumKey !in ids;
  }

  /** A duplicate-free list has as many elements as the set of its elements. */
  lemma {:induction false} DistinctCount(keys: seq<string>, s: set<string>)
    requires Distinct(keys)
    requires forall x :: x in keys <==> x in s
    ensures |keys| == |s|
  {
    if keys != [] {
      var rest := keys[1..];
      assert forall x :: x in rest <==> x in s - {keys[0]} by {
        forall x ensures x in rest <==> x in s - {keys[0]} {
          if x in rest {
            var m :| 0 <= m < |rest| && rest[m] == x;
            assert keys[m + 1] == x;
          }
        }
      }
      DistinctCount(rest, s - {keys[0]});
    }
  }

  /**
   * The reserved keys hold the index list and the counter, and each id
   * holds the article at the highest position with that id.
   */
  lemma ImportDataValues(articles: seq<Article>, indexList: seq<IndexEntry>, x: string)
    requires IdsValid(articles)
    ensures var o := ImportData(articles, indexList);
      && ListKey in o.values && NumKey in o.values
      && o.values[ListKey] == IndexList(indexList)
      && o.values[NumKey] == IndexNum(NextIndexNum(articles))
      && (x in Ids(articles) ==>
            && 0 <= LastWithId(articles, x)
            && x in o.values
            && o.values[x] == ArticleRecord(articles[LastWithId(articles, x)]))
  {
    var base := Reserved(indexList, NextIndexNum(articles));
    AddArticlesKeys(base, articles);
    IdsValidPrefix(articles, |articles|);
    assert articles[..|articles|] == articles;
    ReservedKeysNotIds();
    AddArticlesValues(base, articles, ListKey);
    AddArticlesValues(base, articles, NumKey);
    AddArticlesValues(base, articles, x);
  }
}
