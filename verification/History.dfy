/**
 Cursor paging of a wallet's history (backend/src/store/transactions.rs:70-114 and
 backend/src/handlers/wallet.rs:98-134) over a fixed ledger. SQL leaves the order of equal
 timestamps open, so a page is any sequence the query may return.
 */
module History {
  import opened Numerals
  import opened Wrappers
  import opened Transactions
  import opened Submit
  import SubmitSafety

  type Page = seq<Key>

  function Distance(a: int, b: int): nat { if a < b then b - a else a - b }

  /** `limit.unwrap_or(20).clamp(1, 100)`: the permitted size nearest to what was asked for. */
  function ClampLimit(limit: Option<int>): (n: nat)
    ensures 1 <= n <= 100
    ensures limit == None ==> n == 20
    ensures limit.Some? ==> forall k :: 1 <= k <= 100 ==> Distance(limit.value, n) <= Distance(limit.value, k)
  {
    var n := if limit.Some? then limit.value else 20;
    if n < 1 then 1 else if n > 100 then 100 else n
  }

  /** The wallet's broadcast rows, older than the cursor when there is one. */
  ghost function Eligible(rows: Ledger, wallet: WalletId, before: Option<int>): set<Key> {
    set k | k in rows && rows[k].wallet == Some(wallet) && rows[k].signature.Some? &&
      (before.Some? ==> rows[k].createdAt < before.value)
  }

  ghost predicate Descending(rows: Ledger, page: Page) {
    && (forall i :: 0 <= i < |page| ==> page[i] in rows)
    && (forall i, j :: 0 <= i < j < |page| ==>
      page[i] != page[j] && rows[page[i]].createdAt >= rows[page[j]].createdAt)
  }

  /** A possible result of `order by created_at desc limit n`. */
  ghost predicate IsPage(rows: Ledger, wallet: WalletId, limit: nat, before: Option<int>, page: Page) {
    var eligible := Eligible(rows, wallet, before);
    && Descending(rows, page)
    && (forall i :: 0 <= i < |page| ==> page[i] in eligible)
    && |page| == (if limit < |eligible| then limit else |eligible|)
    && (forall k, i :: k in eligible && k !in page && 0 <= i < |page| ==> rows[page[i]].createdAt >= rows[k].createdAt)
  }

  /** The page is not empty; its last row is in the ledger. */
  ghost predicate Ends(rows: Ledger, page: Page) {
    page != [] && page[|page| - 1] in rows
  }

  ghost function Oldest(rows: Ledger, page: Page): int
    requires Ends(rows, page)
  {
    rows[page[|page| - 1]].createdAt
  }

  /** The cursor a client sends for page i: the last timestamp of the page before. */
  ghost function Cursor(rows: Ledger, pages: seq<Page>, i: nat): Option<int>
    requires i <= |pages| && (i > 0 ==> Ends(rows, pages[i - 1]))
  {
    if i == 0 then None else Some(Oldest(rows, pages[i - 1]))
  }

  /** Page i answers the cursor of a page before it that was not empty. */
  ghost predicate PageAt(rows: Ledger, wallet: WalletId, limit: nat, pages: seq<Page>, i: nat)
    requires i < |pages|
  {
    && (i > 0 ==> Ends(rows, pages[i - 1]))
    && IsPage(rows, wallet, limit, Cursor(rows, pages, i), pages[i])
  }

  /** A client asking for page after page, as long as they are not empty. */
  ghost predicate Paged(rows: Ledger, wallet: WalletId, limit: nat, pages: seq<Page>) {
    forall i :: 0 <= i < |pages| ==> PageAt(rows, wallet, limit, pages, i)
  }

  ghost predicate Finished(pages: seq<Page>) {
    pages != [] && pages[|pages| - 1] == []
  }

  // ---- the query has an answer ----

  lemma {:induction false} Newest(rows: Ledger, keys: set<Key>) returns (k: Key)
    requires keys != {} && keys <= rows.Keys
    ensures k in keys && forall l :: l in keys ==> rows[k].createdAt >= rows[l].createdAt
    decreases |keys|
  {
    k :| k in keys;
    if keys != {k} {
      var l := Newest(rows, keys - {k});
      if rows[l].createdAt > rows[k].createdAt { k := l; }
    }
  }

  /** Some page always exists, so the paging results below speak of every client. */
  lemma {:induction false} PageExists(rows: Ledger, wallet: WalletId, limit: nat, before: Option<int>)
    returns (page: Page)
    ensures IsPage(rows, wallet, limit, before, page)
  {
    var eligible := Eligible(rows, wallet, before);
    page := [];
    ghost var left := eligible;
    while |page| < limit && left != {}
      invariant Descending(rows, page) && |page| <= limit && |page| + |left| == |eligible|
      invariant left == set k | k in eligible && k !in page
      invariant forall i :: 0 <= i < |page| ==> page[i] in eligible
      invariant forall k, i :: k in left && 0 <= i < |page| ==> rows[page[i]].createdAt >= rows[k].createdAt
      decreases left
    {
      var k := Newest(rows, left);
      page := page + [k];
      left := left - {k};
    }
  }

  // ---- order and progress ----

  /** What one page of a paging run gives, without its maximality. */
  lemma PageFacts(rows: Ledger, wallet: WalletId, limit: nat, pages: seq<Page>, j: nat)
    requires Paged(rows, wallet, limit, pages) && j < |pages|
    ensures Descending(rows, pages[j]) && |pages[j]| <= limit
    ensures forall k :: k in pages[j] ==> k in Eligible(rows, wallet, None)
    ensures pages[j] != [] ==> Ends(rows, pages[j])
    ensures j > 0 ==> Ends(rows, pages[j - 1])
    ensures j > 0 ==> forall k :: k in pages[j] ==> rows[k].createdAt < Oldest(rows, pages[j - 1])
  {
    assert PageAt(rows, wallet, limit, pages, j);
    forall k | k in pages[j] ensures k in Eligible(rows, wallet, Cursor(rows, pages, j)) {
      var i :| 0 <= i < |pages[j]| && pages[j][i] == k;
    }
  }

  lemma {:induction false} LaterPagesOlder(
      rows: Ledger, wallet: WalletId, limit: nat, pages: seq<Page>, i: nat, j: nat)
    requires Paged(rows, wallet, limit, pages) && i < j < |pages|
    ensures Ends(rows, pages[i])
    ensures forall k :: k in pages[j] ==> k in rows && rows[k].createdAt < Oldest(rows, pages[i])
    decreases j
  {
    hide Paged;
    PageFacts(rows, wallet, limit, pages, j);
    if i < j - 1 {
      LaterPagesOlder(rows, wallet, limit, pages, i, j - 1);
      assert pages[j - 1][|pages[j - 1]| - 1] in pages[j - 1];
    }
  }

  lemma OldestIsLeast(rows: Ledger, page: Page, k: Key)
    requires Descending(rows, page) && k in page
    ensures Ends(rows, page) && Oldest(rows, page) <= rows[k].createdAt
  {
    var i :| 0 <= i < |page| && page[i] == k;
  }

  /** Every row of an earlier page is strictly newer than every row of a later one. */
  lemma PagesDescend(
      rows: Ledger, wallet: WalletId, limit: nat, pages: seq<Page>, i: nat, j: nat, a: Key, b: Key)
    requires Paged(rows, wallet, limit, pages) && i < j < |pages| && a in pages[i] && b in pages[j]
    ensures a != b && a in rows && b in rows && rows[a].createdAt > rows[b].createdAt
  {
    LaterPagesOlder(rows, wallet, limit, pages, i, j);
    PageFacts(rows, wallet, limit, pages, i);
    OldestIsLeast(rows, pages[i], a);
  }

  ghost function Rows(pages: seq<Page>): set<Key> {
    set i, k | 0 <= i < |pages| && k in pages[i] :: k
  }

  ghost function Total(pages: seq<Page>): nat {
    if pages == [] then 0 else Total(pages[..|pages| - 1]) + |pages[|pages| - 1]|
  }

  ghost function Keys(page: Page): set<Key> {
    set k | k in page
  }

  lemma {:induction false} PageAsSet(rows: Ledger, page: Page)
    requires Descending(rows, page)
    ensures |Keys(page)| == |page|
  {
    if page != [] {
      var front, last := page[..|page| - 1], page[|page| - 1];
      PageAsSet(rows, front);
      assert page == front + [last];
      assert Keys(page) == Keys(front) + {last};
    } else {
      assert Keys(page) == {};
    }
  }

  lemma RowsSplit(pages: seq<Page>)
    requires pages != []
    ensures Rows(pages) == Rows(pages[..|pages| - 1]) + Keys(pages[|pages| - 1])
  {
    var n := |pages| - 1;
    forall k | k in Rows(pages[..n]) ensures k in Rows(pages) {
      var i :| 0 <= i < n && k in pages[..n][i];
      assert k in pages[i];
    }
    forall k | k in Rows(pages) ensures k in Rows(pages[..n]) + Keys(pages[n]) {
      var i :| 0 <= i <= n && k in pages[i];
      if i < n { assert k in pages[..n][i]; }
    }
  }

  /** The last page serves nothing again. */
  lemma LastPageFresh(rows: Ledger, wallet: WalletId, limit: nat, pages: seq<Page>)
    requires Paged(rows, wallet, limit, pages) && pages != []
    ensures Rows(pages[..|pages| - 1]) !! Keys(pages[|pages| - 1])
  {
    hide Paged;
    var n := |pages| - 1;
    forall k | k in Rows(pages[..n]) ensures k !in Keys(pages[n]) {
      var i :| 0 <= i < n && k in pages[..n][i];
      if k in pages[n] { PagesDescend(rows, wallet, limit, pages, i, n, k, k); }
    }
  }

  /** No row is served twice: the pages' lengths add up to the number of distinct rows served. */
  lemma {:induction false} NoneRepeated(rows: Ledger, wallet: WalletId, limit: nat, pages: seq<Page>)
    requires Paged(rows, wallet, limit, pages)
    ensures |Rows(pages)| == Total(pages) && Rows(pages) <= Eligible(rows, wallet, None)
  {
    if pages == [] {
      assert Rows(pages) == {};
    } else {
      hide Paged, Rows, Descending;
      var n := |pages| - 1;
      var front := pages[..n];
      PagedPrefix(rows, wallet, limit, pages, n);
      NoneRepeated(rows, wallet, limit, front);
      RowsSplit(pages);
      PageFacts(rows, wallet, limit, pages, n);
      PageAsSet(rows, pages[n]);
      LastPageFresh(rows, wallet, limit, pages);
    }
  }

  lemma PagedPrefix(rows: Ledger, wallet: WalletId, limit: nat, pages: seq<Page>, n: nat)
    requires Paged(rows, wallet, limit, pages) && n <= |pages|
    ensures Paged(rows, wallet, limit, pages[..n])
  {
    hide IsPage, Ends, Oldest;
    forall i | 0 <= i < n ensures PageAt(rows, wallet, limit, pages[..n], i) {
      assert PageAt(rows, wallet, limit, pages, i);
    }
  }

  lemma {:induction false} NonEmptyPagesCount(pages: seq<Page>)
    requires forall i :: 0 <= i < |pages| - 1 ==> pages[i] != []
    ensures |pages| <= Total(pages) + 1
    ensures pages != [] && pages[|pages| - 1] != [] ==> |pages| <= Total(pages)
  {
    if pages != [] {
      NonEmptyPagesCount(pages[..|pages| - 1]);
    }
  }

  lemma {:induction false} SubsetSize(a: set<Key>, b: set<Key>)
    requires a <= b
    ensures |a| <= |b|
  {
    if a != {} {
      var k :| k in a;
      SubsetSize(a - {k}, b - {k});
    }
  }

  /** Paging ends: a client never asks for more pages than there are rows, plus the empty one. */
  lemma PagingTerminates(rows: Ledger, wallet: WalletId, limit: nat, pages: seq<Page>)
    requires Paged(rows, wallet, limit, pages)
    ensures |pages| <= |Eligible(rows, wallet, None)| + 1
  {
    NoneRepeated(rows, wallet, limit, pages);
    forall i | 0 <= i < |pages| - 1 ensures pages[i] != [] { PageFacts(rows, wallet, limit, pages, i + 1); }
    NonEmptyPagesCount(pages);
    SubsetSize(Rows(pages), Eligible(rows, wallet, None));
  }

  /** A wallet's broadcast row, as the ledger has it. */
  ghost predicate IsBroadcastRow(rows: Ledger, wallet: WalletId, k: Key) {
    k in rows && rows[k].wallet == Some(wallet) && rows[k].signature.Some?
  }

  /** A page holds at most `limit` rows, newest first, all of this wallet and all signed. */
  lemma PageInOrder(rows: Ledger, wallet: WalletId, limit: nat, pages: seq<Page>, i: nat)
    requires Paged(rows, wallet, limit, pages) && i < |pages|
    ensures |pages[i]| <= limit
    ensures forall a :: 0 <= a < |pages[i]| ==> IsBroadcastRow(rows, wallet, pages[i][a])
    ensures forall a, b :: 0 <= a < b < |pages[i]| ==>
      && pages[i][a] in rows && pages[i][b] in rows && pages[i][a] != pages[i][b]
      && rows[pages[i][a]].createdAt >= rows[pages[i][b]].createdAt
  {
    PageFacts(rows, wallet, limit, pages, i);
    forall a | 0 <= a < |pages[i]| ensures IsBroadcastRow(rows, wallet, pages[i][a]) {
      assert pages[i][a] in pages[i];
    }
  }

  // ---- what is served, exactly ----

  /** Page i stops inside a group of equal timestamps and leaves row k of it behind. */
  ghost predicate CutOff(rows: Ledger, pages: seq<Page>, i: nat, k: Key)
    requires i < |pages| && k in rows
  {
    Ends(rows, pages[i]) && Oldest(rows, pages[i]) == rows[k].createdAt && k !in pages[i]
  }

  /** A row old enough for page i but not for the next cursor, and not served, was cut off. */
  lemma LeftBehind(rows: Ledger, wallet: WalletId, limit: nat, pages: seq<Page>, i: nat, k: Key)
    requires i < |pages| && PageAt(rows, wallet, limit, pages, i)
    requires k in Eligible(rows, wallet, Cursor(rows, pages, i)) && k !in pages[i]
    requires Ends(rows, pages[i]) && Oldest(rows, pages[i]) <= rows[k].createdAt
    ensures CutOff(rows, pages, i, k)
  {
  }

  lemma StillEligible(rows: Ledger, wallet: WalletId, before: int, k: Key)
    requires k in Eligible(rows, wallet, None) && rows[k].createdAt < before
    ensures k in Eligible(rows, wallet, Some(before))
  {
  }

  /** A row not served by the first n pages, though no older than they reach, was cut off. */
  lemma {:induction false} PassedOver(
      rows: Ledger, wallet: WalletId, limit: nat, pages: seq<Page>, n: nat, k: Key) returns (i: nat)
    requires Paged(rows, wallet, limit, pages) && k in Eligible(rows, wallet, None)
    requires 0 < n <= |pages| && Ends(rows, pages[n - 1]) && forall j :: 0 <= j < n ==> k !in pages[j]
    requires Oldest(rows, pages[n - 1]) <= rows[k].createdAt
    ensures i < n && CutOff(rows, pages, i, k)
    decreases n
  {
    PageFacts(rows, wallet, limit, pages, n - 1);
    assert PageAt(rows, wallet, limit, pages, n - 1);
    hide Paged, CutOff, IsPage;
    if n > 1 && Oldest(rows, pages[n - 2]) <= rows[k].createdAt {
      i := PassedOver(rows, wallet, limit, pages, n - 1, k);
    } else {
      i := n - 1;
      if n > 1 { StillEligible(rows, wallet, Oldest(rows, pages[n - 2]), k); }
      LeftBehind(rows, wallet, limit, pages, i, k);
    }
  }

  lemma NothingLeft(rows: Ledger, wallet: WalletId, limit: nat, pages: seq<Page>, k: Key)
    requires Paged(rows, wallet, limit, pages) && Finished(pages) && limit >= 1
    requires k in Eligible(rows, wallet, None)
    ensures |pages| > 1 && Ends(rows, pages[|pages| - 2])
    ensures Oldest(rows, pages[|pages| - 2]) <= rows[k].createdAt
  {
    var n := |pages| - 1;
    assert PageAt(rows, wallet, limit, pages, n);
    assert Eligible(rows, wallet, Cursor(rows, pages, n)) == {};
    if n > 0 && rows[k].createdAt < Oldest(rows, pages[n - 1]) {
      StillEligible(rows, wallet, Oldest(rows, pages[n - 1]), k);
    }
  }

  /** A finished client misses a row exactly when some page was cut inside its timestamp. */
  lemma MissedExactlyWhenCut(rows: Ledger, wallet: WalletId, limit: nat, pages: seq<Page>, k: Key)
    requires Paged(rows, wallet, limit, pages) && Finished(pages) && limit >= 1
    requires k in Eligible(rows, wallet, None)
    ensures k !in Rows(pages) <==> exists i :: 0 <= i < |pages| && CutOff(rows, pages, i, k)
  {
    if k !in Rows(pages) {
      NothingLeft(rows, wallet, limit, pages, k);
      var i := PassedOver(rows, wallet, limit, pages, |pages| - 1, k);
    }
    forall i | 0 <= i < |pages| && CutOff(rows, pages, i, k) ensures k !in Rows(pages) {
      forall j | 0 <= j < |pages| ensures k !in pages[j] { CutNeverServed(rows, wallet, limit, pages, i, k, j); }
    }
  }

  lemma CutNeverServed(rows: Ledger, wallet: WalletId, limit: nat, pages: seq<Page>, i: nat, k: Key, j: nat)
    requires Paged(rows, wallet, limit, pages) && i < |pages| && j < |pages|
    requires k in rows && CutOff(rows, pages, i, k)
    ensures k !in pages[j]
  {
    if j > i {
      LaterPagesOlder(rows, wallet, limit, pages, i, j);
    } else if j < i && k in pages[j] {
      PagesDescend(rows, wallet, limit, pages, j, i, k, pages[i][|pages[i]| - 1]);
    }
  }

  // ---- completeness, from the ledger and the limit alone ----

  ghost function NewerThan(rows: Ledger, wallet: WalletId, time: int): set<Key> {
    set k | k in Eligible(rows, wallet, None) && rows[k].createdAt > time
  }

  ghost function AtLeastAsNew(rows: Ledger, wallet: WalletId, time: int): set<Key> {
    set k | k in Eligible(rows, wallet, None) && rows[k].createdAt >= time
  }

  /** The end of the m-th page falls inside the group of rows that share k's timestamp. */
  ghost predicate Straddles(rows: Ledger, wallet: WalletId, limit: nat, k: Key, m: nat)
    requires k in rows
  {
    |NewerThan(rows, wallet, rows[k].createdAt)| < m * limit < |AtLeastAsNew(rows, wallet, rows[k].createdAt)|
  }

  /** No group of equal timestamps straddles a multiple of the page size. */
  ghost predicate Unbroken(rows: Ledger, wallet: WalletId, limit: nat) {
    forall k, m: nat :: k in Eligible(rows, wallet, None) ==> !Straddles(rows, wallet, limit, k, m)
  }

  /** While an eligible row is still to come, every page is full. */
  lemma PageFull(rows: Ledger, wallet: WalletId, limit: nat, pages: seq<Page>, i: nat, k: Key)
    requires Paged(rows, wallet, limit, pages) && i < |pages| && Ends(rows, pages[i])
    requires k in Eligible(rows, wallet, None) && k !in pages[i] && rows[k].createdAt <= Oldest(rows, pages[i])
    ensures |pages[i]| == limit
  {
    var page := pages[i];
    assert PageAt(rows, wallet, limit, pages, i);
    PageFacts(rows, wallet, limit, pages, i);
    assert page[|page| - 1] in page;
    if i > 0 { StillEligible(rows, wallet, Oldest(rows, pages[i - 1]), k); }
    var eligible := Eligible(rows, wallet, Cursor(rows, pages, i));
    PageAsSet(rows, page);
    SubsetSize(Keys(page) + {k}, eligible);
  }

  lemma {:induction false} TotalOfFull(pages: seq<Page>, limit: nat)
    requires forall i :: 0 <= i < |pages| ==> |pages[i]| == limit
    ensures Total(pages) == |pages| * limit
  {
    if pages != [] {
      TotalOfFull(pages[..|pages| - 1], limit);
      assert |pages| * limit == (|pages| - 1) * limit + limit;
    }
  }

  /** Row k is served by none of the first n pages, which reach back to it at most. */
  ghost predicate Ahead(rows: Ledger, pages: seq<Page>, n: nat, k: Key)
    requires n <= |pages| && k in rows
  {
    && (forall j :: 0 <= j < n ==> k !in pages[j])
    && (n > 0 ==> Ends(rows, pages[n - 1]) && rows[k].createdAt <= Oldest(rows, pages[n - 1]))
  }

  lemma FullAhead(rows: Ledger, wallet: WalletId, limit: nat, pages: seq<Page>, n: nat, k: Key, j: nat)
    requires Paged(rows, wallet, limit, pages) && j < n < |pages|
    requires k in Eligible(rows, wallet, None) && Ahead(rows, pages, n, k)
    ensures |pages[j]| == limit
  {
    hide Paged;
    if j < n - 1 {
      LaterPagesOlder(rows, wallet, limit, pages, j, n - 1);
      assert pages[n - 1][|pages[n - 1]| - 1] in pages[n - 1];
    }
    PageFull(rows, wallet, limit, pages, j, k);
  }

  /** The first n pages are full when they end no older than a row they do not serve. */
  lemma FullBefore(rows: Ledger, wallet: WalletId, limit: nat, pages: seq<Page>, n: nat, k: Key)
    requires Paged(rows, wallet, limit, pages) && n < |pages|
    requires k in Eligible(rows, wallet, None) && Ahead(rows, pages, n, k)
    ensures |Rows(pages[..n])| == n * limit
  {
    hide Paged, Ahead, Rows, Total, Eligible;
    forall j | 0 <= j < n ensures |pages[j]| == limit { FullAhead(rows, wallet, limit, pages, n, k, j); }
    PagedPrefix(rows, wallet, limit, pages, n);
    NoneRepeated(rows, wallet, limit, pages[..n]);
    TotalOfFull(pages[..n], limit);
  }

  lemma InRows(pages: seq<Page>, n: nat, k: Key)
    requires n <= |pages|
    ensures k in Rows(pages[..n]) <==> exists j :: 0 <= j < n && k in pages[j]
  {
    if k in Rows(pages[..n]) {
      var j :| 0 <= j < |pages[..n]| && k in pages[..n][j];
      assert k in pages[j];
    }
    forall j | 0 <= j < n && k in pages[j] ensures k in Rows(pages[..n]) {
      assert k in pages[..n][j];
    }
  }

  /** The rows before page i are newer than those on it; those after it are older. */
  lemma AroundPage(rows: Ledger, wallet: WalletId, limit: nat, pages: seq<Page>, i: nat, k: Key)
    requires Paged(rows, wallet, limit, pages) && i < |pages| && k in pages[i]
    ensures k in rows
    ensures Rows(pages[..i]) <= NewerThan(rows, wallet, rows[k].createdAt)
    ensures Rows(pages) == Eligible(rows, wallet, None) ==>
      AtLeastAsNew(rows, wallet, rows[k].createdAt) <= Rows(pages[..i + 1])
    ensures Ahead(rows, pages, i, k)
  {
    hide Paged, Rows;
    PageFacts(rows, wallet, limit, pages, i);
    forall x | x in Rows(pages[..i]) ensures x in NewerThan(rows, wallet, rows[k].createdAt) {
      InRows(pages, i, x);
      var j :| 0 <= j < i && x in pages[j];
      PageFacts(rows, wallet, limit, pages, j);
      PagesDescend(rows, wallet, limit, pages, j, i, x, k);
    }
    if Rows(pages) == Eligible(rows, wallet, None) {
      forall x | x in AtLeastAsNew(rows, wallet, rows[k].createdAt) ensures x in Rows(pages[..i + 1]) {
        InRows(pages, |pages|, x);
        assert pages[..|pages|] == pages;
        var j :| 0 <= j < |pages| && x in pages[j];
        if j > i { PagesDescend(rows, wallet, limit, pages, i, j, k, x); }
        InRows(pages, i + 1, x);
      }
    }
    forall j | 0 <= j < i ensures k !in pages[j] {
      if k in pages[j] { PagesDescend(rows, wallet, limit, pages, j, i, k, k); }
    }
    if i > 0 { LaterPagesOlder(rows, wallet, limit, pages, i - 1, i); }
  }

  /** When nothing is missed, no page end falls inside a group. */
  lemma CompleteMeansUnbroken(rows: Ledger, wallet: WalletId, limit: nat, pages: seq<Page>, k: Key, m: nat)
    requires Paged(rows, wallet, limit, pages) && Finished(pages)
    requires Rows(pages) == Eligible(rows, wallet, None) && k in Eligible(rows, wallet, None)
    ensures !Straddles(rows, wallet, limit, k, m)
  {
    InRows(pages, |pages|, k);
    assert pages[..|pages|] == pages;
    var i :| 0 <= i < |pages| && k in pages[i];
    hide Paged, Rows, Eligible, Ahead, NewerThan, AtLeastAsNew;
    AroundPage(rows, wallet, limit, pages, i, k);
    SubsetSize(Rows(pages[..i]), NewerThan(rows, wallet, rows[k].createdAt));
    SubsetSize(AtLeastAsNew(rows, wallet, rows[k].createdAt), Rows(pages[..i + 1]));
    FullBefore(rows, wallet, limit, pages, i, k);
    PageAdds(rows, wallet, limit, pages, i);
    if i < m { MulMono(i + 1, limit, m, limit); } else { MulMono(m, limit, i, limit); }
  }

  lemma PageAdds(rows: Ledger, wallet: WalletId, limit: nat, pages: seq<Page>, i: nat)
    requires Paged(rows, wallet, limit, pages) && i < |pages|
    ensures |Rows(pages[..i + 1])| <= |Rows(pages[..i])| + limit
    ensures (i + 1) * limit == i * limit + limit
  {
    PagedPrefix(rows, wallet, limit, pages, i);
    PagedPrefix(rows, wallet, limit, pages, i + 1);
    NoneRepeated(rows, wallet, limit, pages[..i]);
    NoneRepeated(rows, wallet, limit, pages[..i + 1]);
    assert pages[..i + 1][..i] == pages[..i];
    PageFacts(rows, wallet, limit, pages, i);
  }

  /** No eligible row is cut off before page i. */
  ghost predicate NoCutBefore(rows: Ledger, wallet: WalletId, pages: seq<Page>, i: nat)
    requires i <= |pages|
  {
    forall a, x :: 0 <= a < i && x in Eligible(rows, wallet, None) ==> !CutOff(rows, pages, a, x)
  }

  lemma {:induction false} FirstCut(rows: Ledger, wallet: WalletId, pages: seq<Page>, i: nat, k: Key)
    returns (j: nat, l: Key)
    requires k in Eligible(rows, wallet, None) && i < |pages| && CutOff(rows, pages, i, k)
    ensures l in Eligible(rows, wallet, None) && j < |pages| && CutOff(rows, pages, j, l)
    ensures NoCutBefore(rows, wallet, pages, j)
    decreases i
  {
    if a, x :| 0 <= a < i && x in Eligible(rows, wallet, None) && CutOff(rows, pages, a, x) {
      j, l := FirstCut(rows, wallet, pages, a, x);
    } else {
      j, l := i, k;
    }
  }

  lemma CutCovers(rows: Ledger, wallet: WalletId, limit: nat, pages: seq<Page>, i: nat, k: Key, x: Key)
    requires Paged(rows, wallet, limit, pages) && i < |pages| && k in rows
    requires CutOff(rows, pages, i, k) && NoCutBefore(rows, wallet, pages, i)
    requires x in Eligible(rows, wallet, None) && rows[x].createdAt > rows[k].createdAt
    ensures x in Rows(pages[..i + 1])
  {
    InRows(pages, i + 1, x);
    if x !in Rows(pages[..i + 1]) {
      var a := PassedOver(rows, wallet, limit, pages, i + 1, x);
    }
  }

  lemma NewerServed(rows: Ledger, wallet: WalletId, limit: nat, pages: seq<Page>, i: nat, k: Key)
    requires Paged(rows, wallet, limit, pages) && i < |pages| && k in rows
    requires CutOff(rows, pages, i, k) && NoCutBefore(rows, wallet, pages, i)
    ensures NewerThan(rows, wallet, rows[k].createdAt) <= Rows(pages[..i + 1])
  {
    hide Paged, Rows, CutOff, NoCutBefore;
    forall x | x in NewerThan(rows, wallet, rows[k].createdAt) ensures x in Rows(pages[..i + 1]) {
      CutCovers(rows, wallet, limit, pages, i, k, x);
    }
  }

  lemma CutWithin(rows: Ledger, wallet: WalletId, limit: nat, pages: seq<Page>, i: nat, k: Key)
    requires Paged(rows, wallet, limit, pages)
    requires k in Eligible(rows, wallet, None) && i < |pages| && CutOff(rows, pages, i, k)
    ensures Rows(pages[..i + 1]) <= AtLeastAsNew(rows, wallet, rows[k].createdAt)
    ensures Ahead(rows, pages, i + 1, k) && k !in Rows(pages[..i + 1])
    ensures pages[i][|pages[i]| - 1] in Rows(pages[..i + 1])
  {
    hide Paged, Rows;
    var last := pages[i][|pages[i]| - 1];
    assert last in pages[i];
    InRows(pages, i + 1, last);
    InRows(pages, i + 1, k);
    forall j | 0 <= j <= i ensures k !in pages[j] {
      if j < i && k in pages[j] { PagesDescend(rows, wallet, limit, pages, j, i, k, last); }
    }
    forall x | x in Rows(pages[..i + 1]) ensures x in AtLeastAsNew(rows, wallet, rows[k].createdAt) {
      InRows(pages, i + 1, x);
      var j :| 0 <= j < i + 1 && x in pages[j];
      PageFacts(rows, wallet, limit, pages, j);
      if j < i { PagesDescend(rows, wallet, limit, pages, j, i, x, last); }
      else { OldestIsLeast(rows, pages[i], x); }
    }
  }

  /** The first cut falls at the end of a full page, inside a group of equal timestamps. */
  lemma CutStraddles(rows: Ledger, wallet: WalletId, limit: nat, pages: seq<Page>, i: nat, k: Key)
    requires Paged(rows, wallet, limit, pages) && Finished(pages)
    requires k in Eligible(rows, wallet, None) && i < |pages| && CutOff(rows, pages, i, k)
    requires NoCutBefore(rows, wallet, pages, i)
    ensures Straddles(rows, wallet, limit, k, i + 1)
  {
    var time, served := rows[k].createdAt, Rows(pages[..i + 1]);
    var last := pages[i][|pages[i]| - 1];
    assert i + 1 < |pages|;
    assert last !in NewerThan(rows, wallet, time);
    assert k in AtLeastAsNew(rows, wallet, time);
    hide Paged, Rows, Ahead, Eligible, NewerThan, AtLeastAsNew, NoCutBefore;
    NewerServed(rows, wallet, limit, pages, i, k);
    CutWithin(rows, wallet, limit, pages, i, k);
    FullBefore(rows, wallet, limit, pages, i + 1, k);
    SubsetSize(NewerThan(rows, wallet, time) + {last}, served);
    SubsetSize(served + {k}, AtLeastAsNew(rows, wallet, time));
  }

  /**
   Exactly when a finished client has seen the whole history: if and only if no group of
   equal timestamps straddles a multiple of the page size.
   */
  lemma {:induction false} CompleteIffUnbroken(rows: Ledger, wallet: WalletId, limit: nat, pages: seq<Page>)
    requires Paged(rows, wallet, limit, pages) && Finished(pages) && limit >= 1
    ensures Rows(pages) == Eligible(rows, wallet, None) <==> Unbroken(rows, wallet, limit)
  {
    hide Paged, CutOff, Straddles;
    NoneRepeated(rows, wallet, limit, pages);
    if Rows(pages) == Eligible(rows, wallet, None) {
      forall k, m: nat | k in Eligible(rows, wallet, None) ensures !Straddles(rows, wallet, limit, k, m) {
        CompleteMeansUnbroken(rows, wallet, limit, pages, k, m);
      }
    } else {
      var k :| k in Eligible(rows, wallet, None) && k !in Rows(pages);
      MissedExactlyWhenCut(rows, wallet, limit, pages, k);
      var i :| 0 <= i < |pages| && CutOff(rows, pages, i, k);
      var j, l := FirstCut(rows, wallet, pages, i, k);
      CutStraddles(rows, wallet, limit, pages, j, l);
    }
  }

  /** With distinct timestamps the pages are the whole history, for every limit a client may ask. */
  lemma WholeHistory(rows: Ledger, wallet: WalletId, limit: Option<int>, pages: seq<Page>)
    requires Paged(rows, wallet, ClampLimit(limit), pages) && Finished(pages)
    requires forall k, l :: k in Eligible(rows, wallet, None) && l in Eligible(rows, wallet, None) && k != l ==>
      rows[k].createdAt != rows[l].createdAt
    ensures Rows(pages) == Eligible(rows, wallet, None)
    ensures Total(pages) == |Eligible(rows, wallet, None)|
  {
    hide Paged;
    var n := ClampLimit(limit);
    NoneRepeated(rows, wallet, n, pages);
    forall k, m: nat | k in Eligible(rows, wallet, None) ensures !Straddles(rows, wallet, n, k, m) {
      var time := rows[k].createdAt;
      assert AtLeastAsNew(rows, wallet, time) == NewerThan(rows, wallet, time) + {k};
    }
    CompleteIffUnbroken(rows, wallet, n, pages);
  }

  lemma PagedExtends(rows: Ledger, wallet: WalletId, limit: nat, pages: seq<Page>, page: Page)
    requires Paged(rows, wallet, limit, pages) && (pages != [] ==> Ends(rows, pages[|pages| - 1]))
    requires IsPage(rows, wallet, limit, Cursor(rows, pages, |pages|), page)
    ensures Paged(rows, wallet, limit, pages + [page])
  {
    hide IsPage, Ends;
    forall i | 0 <= i <= |pages| ensures PageAt(rows, wallet, limit, pages + [page], i) {
      assert i < |pages| ==> PageAt(rows, wallet, limit, pages, i);
    }
  }

  /** Row by row: with distinct timestamps exactly the wallet's broadcast rows are served. */
  lemma ServedExactly(rows: Ledger, wallet: WalletId, limit: Option<int>, pages: seq<Page>, k: Key)
    requires Paged(rows, wallet, ClampLimit(limit), pages) && Finished(pages)
    requires forall a, b :: IsBroadcastRow(rows, wallet, a) && IsBroadcastRow(rows, wallet, b) && a != b ==>
      rows[a].createdAt != rows[b].createdAt
    ensures (exists i :: 0 <= i < |pages| && k in pages[i]) <==> IsBroadcastRow(rows, wallet, k)
  {
    hide Paged;
    assert forall a :: a in Eligible(rows, wallet, None) ==> IsBroadcastRow(rows, wallet, a);
    WholeHistory(rows, wallet, limit, pages);
    InRows(pages, |pages|, k);
    assert pages[..|pages|] == pages;
  }

  /** Whatever was served so far, the client can go on until a page is empty. */
  lemma {:induction false} ClientFinishes(rows: Ledger, wallet: WalletId, limit: nat, pages: seq<Page>)
    returns (all: seq<Page>)
    requires Paged(rows, wallet, limit, pages)
    ensures Paged(rows, wallet, limit, all) && Finished(all)
    decreases |Eligible(rows, wallet, None)| + 1 - |pages|
  {
    hide Paged, IsPage, Eligible;
    if Finished(pages) {
      all := pages;
    } else {
      if pages != [] { PageFacts(rows, wallet, limit, pages, |pages| - 1); }
      var page := PageExists(rows, wallet, limit, Cursor(rows, pages, |pages|));
      PagedExtends(rows, wallet, limit, pages, page);
      PagingTerminates(rows, wallet, limit, pages + [page]);
      all := ClientFinishes(rows, wallet, limit, pages + [page]);
    }
  }

  // ---- a ledger on which a row is missed ----

  ghost function TwoRows(c: Chain, p: Request, q: Request, wallet: WalletId, now: int): Ledger
    requires p.signed.Some? && q.signed.Some?
  {
    map[
      p.key := Row(Some(wallet), p.details, now, Some(c.signatureOf(p.signed.value)), Submitted),
      q.key := Row(Some(wallet), q.details, now, Some(c.signatureOf(q.signed.value)), Submitted)]
  }

  lemma TwoRowsReachable(c: Chain, p: Request, q: Request, wallet: WalletId, now: int) returns (s: System)
    requires p.key != q.key && p.signed.Some? && q.signed.Some?
    requires c.verifies(p.signed.value) && c.verifies(q.signed.value)
    requires c.signatureOf(p.signed.value) != c.signatureOf(q.signed.value)
    ensures Reachable(c, s) && s.ledger == TwoRows(c, p, q, wallet, now)
  {
    var a := SubmitSafety.Attempt(INITIAL, 0, p, Some(wallet), now);
    SubmitSafety.AttemptRuns(c, INITIAL, 0, p, Some(wallet), now);
    var t := Run(c, INITIAL, a).value;
    var b := SubmitSafety.Attempt(t, 1, q, Some(wallet), now);
    SubmitSafety.AttemptRuns(c, t, 1, q, Some(wallet), now);
    RunConcat(c, INITIAL, a, b);
    s := Run(c, t, b).value;
    assert Run(c, INITIAL, a + b) == Some(s);
    assert !SignatureTaken(t.ledger, q.key, c.signatureOf(q.signed.value));
  }

  /**
   Two transactions submitted in the same instant, read one to a page: a reachable ledger
   on which every client that goes on to the end misses one of them, and there is such a client.
   */
  lemma EqualTimestampsMissARow(c: Chain, p: Request, q: Request, wallet: WalletId, now: int)
    requires p.key != q.key && p.signed.Some? && q.signed.Some?
    requires c.verifies(p.signed.value) && c.verifies(q.signed.value)
    requires c.signatureOf(p.signed.value) != c.signatureOf(q.signed.value)
    ensures exists s :: Reachable(c, s) && s.ledger == TwoRows(c, p, q, wallet, now)
    ensures
      var rows := TwoRows(c, p, q, wallet, now);
      && (exists pages :: Paged(rows, wallet, 1, pages) && Finished(pages))
      && forall pages :: Paged(rows, wallet, 1, pages) && Finished(pages) ==>
        Rows(pages) != Eligible(rows, wallet, None)
  {
    var rows := TwoRows(c, p, q, wallet, now);
    var s := TwoRowsReachable(c, p, q, wallet, now);
    var some := ClientFinishes(rows, wallet, 1, []);
    assert NewerThan(rows, wallet, now) == {};
    assert AtLeastAsNew(rows, wallet, now) == {p.key, q.key};
    assert Straddles(rows, wallet, 1, p.key, 1);
    forall pages | Paged(rows, wallet, 1, pages) && Finished(pages)
      ensures Rows(pages) != Eligible(rows, wallet, None)
    {
      CompleteIffUnbroken(rows, wallet, 1, pages);
    }
  }

  /** In any state the submission protocol reaches, no signature appears twice in a history. */
  lemma SignaturesServedOnce(
      c: Chain, s: System, wallet: WalletId, limit: nat, pages: seq<Page>, i: nat, j: nat, a: Key, b: Key)
    requires Reachable(c, s) && Paged(s.ledger, wallet, limit, pages)
    requires i < j < |pages| && a in pages[i] && b in pages[j]
    ensures a in s.ledger && b in s.ledger
    ensures s.ledger[a].signature.Some? && s.ledger[a].signature != s.ledger[b].signature
  {
    PagesDescend(s.ledger, wallet, limit, pages, i, j, a, b);
    SubmitSafety.LedgerInvariants(c, s);
    PageFacts(s.ledger, wallet, limit, pages, i);
  }
}
