/**
 * The two request handlers of the book controller: `list`, which returns the
 * caller's books, and `reviews`, which returns one book's summary and its
 * reviews grouped into one bucket per page.
 *
 * The token check and the model layer are foreign calls. Their answers are
 * parameters here: `auth` is what the token check decoded (None when the
 * caller is not authorized) and `stored` is what the model layer would answer
 * if it were asked. The handler reports whether it asked, and with which
 * query, in `Handled.query`.
 */
module BookController {
  import opened Wrappers
  import opened JsObject

  /** Page numbers. They key the grouping object, so they are array indices. */
  type Page = ArrayIndex

  /** The decoded caller identity; the handlers only use its id. */
  datatype Identity = Identity(id: nat)

  /** One book as the model layer returns it; the controller passes it through untouched. */
  datatype Book = Book(columns: map<string, string>)

  /** One flat row as the model layer returns it for `reviews`. */
  datatype ReviewRow = ReviewRow(
    reviewId: nat, page: Page, createdAt: string, review: string, title: string, thumbnail: string)

  /** The part of a row that goes into a page bucket. */
  datatype Review = Review(reviewId: nat, createdAt: string, review: string)

  datatype PageBucket = PageBucket(page: Page, reviews: seq<Review>)

  datatype BookData = BookData(title: string, thumbnail: string)

  /** What the model layer hands to the callback: an error, or its result. */
  datatype Stored<T> = StorageError | Found(value: T)

  /** The model-layer call a handler makes. */
  datatype Query = ListBooks(userId: nat) | ListReviews(userId: nat, bookId: string)

  datatype Body = NoData | BookList(bookList: seq<Book>) | ReviewList(bookData: BookData, reviewList: seq<PageBucket>)

  /**
   * What the handler does to the response: a JSON reply with a status, or an
   * exception thrown inside the storage callback. When the model layer calls
   * back asynchronously, no reply is sent after it.
   */
  datatype Response = Json(status: nat, message: string, data: Body) | Thrown

  /** The model-layer query issued (if any) and the response produced. */
  datatype Handled = Handled(query: Option<Query>, response: Response)

  const Unauthorized := Json(401, "Invalid user", NoData)
  const ServerError := Json(500, "Server Error", NoData)

  /** `res.json` without an explicit status replies with 200. */
  const StatusOk: nat := 200

  predicate IsOk(r: Response) {
    r.Json? && r.message == "OK"
  }

  /** The `list` handler. */
  function List(auth: Option<Identity>, stored: Stored<seq<Book>>): (h: Handled)
    ensures h.query.None? <==> auth.None?
    ensures auth.Some? ==> h.query == Some(ListBooks(auth.value.id))
    ensures h.response == Unauthorized <==> auth.None?
    ensures h.response == ServerError <==> auth.Some? && stored.StorageError?
    ensures IsOk(h.response) <==> auth.Some? && stored.Found?
    ensures IsOk(h.response) ==> h.response == Json(StatusOk, "OK", BookList(stored.value))
  {
    match auth
    case None => Handled(None, Unauthorized)
    case Some(data) =>
      var q := ListBooks(data.id);
      match stored
      case StorageError => Handled(Some(q), ServerError)
      case Found(bookList) => Handled(Some(q), Json(StatusOk, "OK", BookList(bookList)))
  }

  /** The `reviews` handler for the book named by the route parameter `bookId`. */
  method Reviews(auth: Option<Identity>, bookId: string, stored: Stored<seq<ReviewRow>>) returns (h: Handled)
    ensures h.query.None? <==> auth.None?
    ensures auth.Some? ==> h.query == Some(ListReviews(auth.value.id, bookId))
    ensures h.response == Unauthorized <==> auth.None?
    ensures h.response == ServerError <==> auth.Some? && stored.StorageError?
    ensures h.response.Thrown? <==> auth.Some? && stored.Found? && stored.value == []
    ensures IsOk(h.response) <==> auth.Some? && stored.Found? && stored.value != []
    ensures IsOk(h.response) ==>
      && h.response.status == StatusOk
      && h.response.data.ReviewList?
      && h.response.data.bookData == BookData(stored.value[0].title, stored.value[0].thumbnail)
      && IsGrouping(stored.value, h.response.data.reviewList)
  {
    if auth.None? {
      return Handled(None, Unauthorized);
    }
    var q := ListReviews(auth.value.id, bookId);
    if stored.StorageError? {
      return Handled(Some(q), ServerError);
    }
    var reviewList := stored.value;
    if |reviewList| == 0 {
      // reviewList[0] is undefined, so reading its `title` throws a TypeError.
      return Handled(Some(q), Thrown);
    }
    var bookData := BookData(reviewList[0].title, reviewList[0].thumbnail);
    var buckets := GroupByPage(reviewList);
    h := Handled(Some(q), Json(StatusOk, "OK", ReviewList(bookData, buckets)));
  }

  /** The entry a row contributes to its page's bucket. */
  function ReviewOf(row: ReviewRow): Review {
    Review(row.reviewId, row.createdAt, row.review)
  }

  /** The grouping loop of `reviews` followed by `Object.values`. */
  method GroupByPage(rows: seq<ReviewRow>) returns (buckets: seq<PageBucket>)
    ensures IsGrouping(rows, buckets)
  {
    var temp: map<Page, PageBucket> := map[];
    for i := 0 to |rows|
      invariant temp.Keys == PagesOf(rows[..i])
      invariant forall p :: p in temp ==> temp[p] == PageBucket(p, EntriesOn(rows[..i], p))
    {
      var row := rows[i];
      assert rows[..i + 1] == rows[..i] + [row];
      PagesOfSnoc(rows[..i], row);
      assert rows[..i + 1][..i] == rows[..i];
      EntriesOnEmpty(rows[..i], row.page);
      if row.page !in temp {
        temp := temp[row.page := PageBucket(row.page, [])];
      }
      temp := temp[row.page := temp[row.page].(reviews := temp[row.page].reviews + [ReviewOf(row)])];
    }
    assert rows[..|rows|] == rows;
    buckets := Values(temp);
    ValuesGroup(rows, temp);
  }

  /** Listing the grouping object's values yields the grouping of the rows it was filled from. */
  lemma ValuesGroup(rows: seq<ReviewRow>, temp: map<Page, PageBucket>)
    requires temp.Keys == PagesOf(rows)
    requires forall p :: p in temp ==> temp[p] == PageBucket(p, EntriesOn(rows, p))
    ensures IsGrouping(rows, Values(temp))
  {
    var buckets := Values(temp);
    var ks := OwnKeys(temp.Keys);
    forall i | 0 <= i < |buckets|
      ensures buckets[i] == PageBucket(ks[i], EntriesOn(rows, ks[i]))
    {
      assert buckets[i] == temp[ks[i]];
    }
    ListedInKeyOrder(rows, ks, buckets);
    KeysListed(temp.Keys, ks, buckets);
  }

  lemma ListedInKeyOrder(rows: seq<ReviewRow>, ks: seq<Page>, buckets: seq<PageBucket>)
    requires |buckets| == |ks| && StrictlyAscending(ks)
    requires forall i :: 0 <= i < |buckets| ==> buckets[i] == PageBucket(ks[i], EntriesOn(rows, ks[i]))
    ensures PagesAscending(buckets) && BucketsFilled(rows, buckets)
  {
  }

  lemma KeysListed(keys: set<Page>, ks: seq<Page>, buckets: seq<PageBucket>)
    requires |buckets| == |ks|
    requires forall i :: 0 <= i < |buckets| ==> buckets[i].page == ks[i]
    requires forall k :: k in ks <==> k in keys
    ensures BucketPages(buckets) == keys
  {
    forall p | p in keys ensures p in BucketPages(buckets) {
      var i :| 0 <= i < |ks| && ks[i] == p;
      assert buckets[i] in buckets;
    }
  }

  // ---------------------------------------------------------------------------
  // The specification of the grouping

  /** The pages that occur among the rows. */
  ghost function PagesOf(rows: seq<ReviewRow>): set<Page> {
    set r | r in rows :: r.page
  }

  /** The pages of a bucket list. */
  ghost function BucketPages(buckets: seq<PageBucket>): set<Page> {
    set b | b in buckets :: b.page
  }

  /** The entries of the rows on page `p`, in row order. */
  ghost function EntriesOn(rows: seq<ReviewRow>, p: Page): seq<Review> {
    if rows == [] then []
    else
      var last := rows[|rows| - 1];
      EntriesOn(rows[..|rows| - 1], p) + (if last.page == p then [ReviewOf(last)] else [])
  }

  ghost predicate PagesAscending(buckets: seq<PageBucket>) {
    forall i, j :: 0 <= i < j < |buckets| ==> buckets[i].page < buckets[j].page
  }

  /** Each bucket holds exactly the entries of its page. */
  ghost predicate BucketsFilled(rows: seq<ReviewRow>, buckets: seq<PageBucket>) {
    forall i :: 0 <= i < |buckets| ==> buckets[i].reviews == EntriesOn(rows, buckets[i].page)
  }

  /** `buckets` is the grouping of `rows`: one bucket per page that occurs, in ascending page order. */
  ghost predicate IsGrouping(rows: seq<ReviewRow>, buckets: seq<PageBucket>) {
    && PagesAscending(buckets)
    && BucketsFilled(rows, buckets)
    && BucketPages(buckets) == PagesOf(rows)
  }

  /** The number of entries over all buckets. */
  ghost function TotalReviews(buckets: seq<PageBucket>): nat {
    if buckets == [] then 0 else |buckets[0].reviews| + TotalReviews(buckets[1..])
  }

  // ---------------------------------------------------------------------------
  // Lemmas about the grouping

  lemma PagesOfSnoc(rows: seq<ReviewRow>, row: ReviewRow)
    ensures PagesOf(rows + [row]) == PagesOf(rows) + {row.page}
  {
    var rs := rows + [row];
    forall p | p in PagesOf(rs) ensures p in PagesOf(rows) + {row.page} {
      var r :| r in rs && r.page == p;
      if r != row {
        assert r in rows;
      }
    }
    assert forall r :: r in rows ==> r in rs;
  }

  /** A page has entries exactly when some row is on it. */
  lemma {:induction false} EntriesOnEmpty(rows: seq<ReviewRow>, p: Page)
    ensures EntriesOn(rows, p) == [] <==> p !in PagesOf(rows)
  {
    if rows != [] {
      var init := rows[..|rows| - 1];
      var last := rows[|rows| - 1];
      assert rows == init + [last];
      EntriesOnEmpty(init, p);
      PagesOfSnoc(init, last);
    }
  }

  /** No bucket of a grouping is empty. */
  lemma GroupingNoEmptyBucket(rows: seq<ReviewRow>, buckets: seq<PageBucket>)
    requires IsGrouping(rows, buckets)
    ensures forall i :: 0 <= i < |buckets| ==> buckets[i].reviews != []
  {
    forall i | 0 <= i < |buckets| ensures buckets[i].reviews != [] {
      assert buckets[i] in buckets;
      assert buckets[i].page in PagesOf(rows);
      EntriesOnEmpty(rows, buckets[i].page);
    }
  }

  lemma {:induction false} EntriesOnConcat(a: seq<ReviewRow>, b: seq<ReviewRow>, p: Page)
    ensures EntriesOn(a + b, p) == EntriesOn(a, p) + EntriesOn(b, p)
    decreases |b|
  {
    if b == [] {
      assert a + b == a;
    } else {
      var init := b[..|b| - 1];
      var last := b[|b| - 1];
      assert (a + b)[..|a + b| - 1] == a + init;
      assert (a + b)[|a + b| - 1] == last;
      EntriesOnConcat(a, init, p);
    }
  }

  lemma EntriesOnSingle(row: ReviewRow, p: Page)
    ensures EntriesOn([row], p) == if row.page == p then [ReviewOf(row)] else []
  {
    assert [row][..0] == [];
  }

  /** The row at index `k` contributes its entry to its own page. */
  lemma RowInItsPage(rows: seq<ReviewRow>, k: nat)
    requires k < |rows|
    ensures ReviewOf(rows[k]) in EntriesOn(rows, rows[k].page)
  {
    var p := rows[k].page;
    var front, mid, back := rows[..k], [rows[k]], rows[k + 1..];
    assert rows == front + (mid + back);
    EntriesOnConcat(front, mid + back, p);
    EntriesOnConcat(mid, back, p);
    EntriesOnSingle(rows[k], p);
    var e := EntriesOn(rows, p);
    assert e[|EntriesOn(front, p)|] == ReviewOf(rows[k]);
  }

  /** Within a page's entries, two rows on that page appear in input-row order. */
  lemma EntriesKeepRowOrder(rows: seq<ReviewRow>, i: nat, j: nat)
    requires i < j < |rows| && rows[i].page == rows[j].page
    ensures exists a, b ::
      0 <= a < b < |EntriesOn(rows, rows[j].page)|
      && EntriesOn(rows, rows[j].page)[a] == ReviewOf(rows[i])
      && EntriesOn(rows, rows[j].page)[b] == ReviewOf(rows[j])
  {
    var p := rows[j].page;
    var front, back := rows[..j], rows[j..];
    assert rows == front + back;
    assert back == [rows[j]] + rows[j + 1..];
    EntriesOnConcat(front, back, p);
    EntriesOnConcat([rows[j]], rows[j + 1..], p);
    EntriesOnSingle(rows[j], p);
    assert front[i] == rows[i];
    RowInItsPage(front, i);
    var e := EntriesOn(rows, p);
    var a :| 0 <= a < |EntriesOn(front, p)| && EntriesOn(front, p)[a] == ReviewOf(rows[i]);
    var b := |EntriesOn(front, p)|;
    assert e[a] == ReviewOf(rows[i]);
    assert e[b] == ReviewOf(rows[j]);
  }

  /** Every row lands in exactly one bucket of a grouping: the one of its page. */
  lemma RowInOneBucket(rows: seq<ReviewRow>, buckets: seq<PageBucket>, k: nat)
    requires IsGrouping(rows, buckets) && k < |rows|
    ensures exists i ::
      0 <= i < |buckets| && buckets[i].page == rows[k].page && ReviewOf(rows[k]) in buckets[i].reviews
    ensures forall i, j ::
      0 <= i < |buckets| && 0 <= j < |buckets| && buckets[i].page == rows[k].page == buckets[j].page ==> i == j
  {
    assert rows[k] in rows;
    assert rows[k].page in BucketPages(buckets);
    var b :| b in buckets && b.page == rows[k].page;
    var i :| 0 <= i < |buckets| && buckets[i] == b;
    RowInItsPage(rows, k);
  }

  // The total-count proof: the entries of distinct pages covering every row add up to the row count.

  /** The number of entries of `rows` on the pages of `buckets`, counted page by page. */
  ghost function SumOn(rows: seq<ReviewRow>, buckets: seq<PageBucket>): nat {
    if buckets == [] then 0 else |EntriesOn(rows, buckets[0].page)| + SumOn(rows, buckets[1..])
  }

  /** How many buckets carry page `p`. */
  ghost function Occurrences(buckets: seq<PageBucket>, p: Page): nat {
    if buckets == [] then 0 else (if buckets[0].page == p then 1 else 0) + Occurrences(buckets[1..], p)
  }

  lemma {:induction false} SumOnSnoc(rows: seq<ReviewRow>, row: ReviewRow, buckets: seq<PageBucket>)
    ensures SumOn(rows + [row], buckets) == SumOn(rows, buckets) + Occurrences(buckets, row.page)
  {
    if buckets != [] {
      assert (rows + [row])[..|rows + [row]| - 1] == rows;
      SumOnSnoc(rows, row, buckets[1..]);
    }
  }

  lemma {:induction false} OccursOnce(buckets: seq<PageBucket>, p: Page)
    requires PagesAscending(buckets) && p in BucketPages(buckets)
    ensures Occurrences(buckets, p) == 1
  {
    if buckets[0].page == p {
      OccursNot(buckets[1..], p);
    } else {
      var b :| b in buckets && b.page == p;
      assert b in buckets[1..];
      OccursOnce(buckets[1..], p);
    }
  }

  lemma {:induction false} OccursNot(buckets: seq<PageBucket>, p: Page)
    requires forall i :: 0 <= i < |buckets| ==> p < buckets[i].page
    ensures Occurrences(buckets, p) == 0
  {
    if buckets != [] {
      OccursNot(buckets[1..], p);
    }
  }

  lemma {:induction false} SumOnCovers(rows: seq<ReviewRow>, buckets: seq<PageBucket>)
    requires PagesAscending(buckets) && PagesOf(rows) <= BucketPages(buckets)
    ensures SumOn(rows, buckets) == |rows|
    decreases |rows|
  {
    if rows == [] {
      SumOnNone(buckets);
    } else {
      var init := rows[..|rows| - 1];
      var last := rows[|rows| - 1];
      assert rows == init + [last];
      PagesOfSnoc(init, last);
      SumOnCovers(init, buckets);
      SumOnSnoc(init, last, buckets);
      OccursOnce(buckets, last.page);
    }
  }

  lemma {:induction false} SumOnNone(buckets: seq<PageBucket>)
    ensures SumOn([], buckets) == 0
  {
    if buckets != [] {
      SumOnNone(buckets[1..]);
    }
  }

  lemma {:induction false} TotalIsSumOn(rows: seq<ReviewRow>, buckets: seq<PageBucket>)
    requires BucketsFilled(rows, buckets)
    ensures TotalReviews(buckets) == SumOn(rows, buckets)
  {
    if buckets != [] {
      TotalIsSumOn(rows, buckets[1..]);
    }
  }

  /** The buckets of a grouping hold as many entries as there are rows. */
  lemma GroupingCount(rows: seq<ReviewRow>, buckets: seq<PageBucket>)
    requires IsGrouping(rows, buckets)
    ensures TotalReviews(buckets) == |rows|
  {
    TotalIsSumOn(rows, buckets);
    SumOnCovers(rows, buckets);
  }

  /** A row list has one grouping only. */
  lemma GroupingUnique(rows: seq<ReviewRow>, b1: seq<PageBucket>, b2: seq<PageBucket>)
    requires IsGrouping(rows, b1) && IsGrouping(rows, b2)
    ensures b1 == b2
  {
    BucketsDetermined(rows, b1, b2);
  }

  lemma {:induction false} BucketsDetermined(rows: seq<ReviewRow>, b1: seq<PageBucket>, b2: seq<PageBucket>)
    requires PagesAscending(b1) && BucketsFilled(rows, b1)
    requires PagesAscending(b2) && BucketsFilled(rows, b2)
    requires BucketPages(b1) == BucketPages(b2)
    ensures b1 == b2
    decreases |b1|
  {
    NoPagesNoBuckets(b1);
    NoPagesNoBuckets(b2);
    if b1 != [] {
      FirstPagesAgree(b1, b2);
      TailPages(b1);
      TailPages(b2);
      BucketsDetermined(rows, b1[1..], b2[1..]);
      assert b1 == [b1[0]] + b1[1..];
      assert b2 == [b2[0]] + b2[1..];
    }
  }

  lemma FirstPagesAgree(b1: seq<PageBucket>, b2: seq<PageBucket>)
    requires b1 != [] && PagesAscending(b1) && PagesAscending(b2)
    requires BucketPages(b1) == BucketPages(b2)
    ensures b2 != [] && b1[0].page == b2[0].page
  {
    assert b1[0] in b1;
    assert b1[0].page in BucketPages(b2);
    var x :| x in b2 && x.page == b1[0].page;
    assert b2[0] in b2;
    assert b2[0].page in BucketPages(b1);
    var y :| y in b1 && y.page == b2[0].page;
  }

  lemma NoPagesNoBuckets(buckets: seq<PageBucket>)
    ensures BucketPages(buckets) == {} <==> buckets == []
  {
    if buckets != [] {
      assert buckets[0] in buckets;
      assert buckets[0].page in BucketPages(buckets);
    }
  }

  lemma TailPages(buckets: seq<PageBucket>)
    requires buckets != [] && PagesAscending(buckets)
    ensures BucketPages(buckets[1..]) == BucketPages(buckets) - {buckets[0].page}
  {
    var tail := buckets[1..];
    forall p | p in BucketPages(buckets) - {buckets[0].page} ensures p in BucketPages(tail) {
      var b :| b in buckets && b.page == p;
      var i :| 0 <= i < |buckets| && buckets[i] == b;
      assert tail[i - 1] == b;
    }
    forall p | p in BucketPages(tail) ensures p in BucketPages(buckets) - {buckets[0].page} {
      var b :| b in tail && b.page == p;
      var i :| 0 <= i < |tail| && tail[i] == b;
      assert buckets[i + 1] == b;
    }
  }

  /**
   * Buckets come out in ascending page order, not in the order pages are first
   * seen: rows on page 2 then page 1 give the page-1 bucket first.
   */
  lemma AscendingNotFirstSeen(r2: ReviewRow, r1: ReviewRow, buckets: seq<PageBucket>)
    requires r2.page == 2 && r1.page == 1
    requires IsGrouping([r2, r1], buckets)
    ensures |buckets| == 2
    ensures buckets[0] == PageBucket(1, [ReviewOf(r1)])
    ensures buckets[1] == PageBucket(2, [ReviewOf(r2)])
  {
    var rows := [r2, r1];
    assert PagesOf(rows) == {1, 2};
    assert rows[..1] == [r2];
    assert [r2][..0] == [];
    EntriesOnConcat([r2], [r1], 1);
    EntriesOnConcat([r2], [r1], 2);
    EntriesOnSingle(r1, 1);
    EntriesOnSingle(r1, 2);
    EntriesOnSingle(r2, 1);
    EntriesOnSingle(r2, 2);
    var expected := [PageBucket(1, [ReviewOf(r1)]), PageBucket(2, [ReviewOf(r2)])];
    assert BucketPages(expected) == {1, 2};
    GroupingUnique(rows, buckets, expected);
  }
}
