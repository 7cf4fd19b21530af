/**
 * `is_last_batch`: whether the posts already shown exhaust the query, so that
 * infinite scroll has nothing more to load.
 *
 * `paged` is the query's `paged` variable, which `WP_Query` has already passed
 * through `absint`, so it is a natural number; `postsPerPage` comes from the
 * normalised settings and may be any integer (-1 means "all" to WordPress).
 */
module Paging {

  function Max1(n: nat): nat {
    if n < 1 then 1 else n
  }

  /** Reference reading: the pages seen so far (at least one) hold all the posts found. */
  predicate PagesCoverFound(foundPosts: nat, postsPerPage: int, paged: nat) {
    foundPosts <= postsPerPage * Max1(paged)
  }

  /**
   * `is_last_batch`. When `found_posts` is 0 (some setups return posts but report
   * none found) it falls back on the size of the current batch.
   */
  function IsLastBatch(foundPosts: nat, postCount: nat, postsPerPage: int, paged: nat): (r: bool)
    ensures foundPosts == 0 ==> (r <==> postCount < postsPerPage)
    ensures foundPosts > 0 ==> (r <==> PagesCoverFound(foundPosts, postsPerPage, paged))
  {
    if foundPosts == 0 then postCount < postsPerPage
    else if foundPosts <= postsPerPage then true
    else
      var entries := if paged > 1 then foundPosts - postsPerPage * paged else foundPosts;
      PagesCoverFoundWhenPositive(foundPosts, postsPerPage, paged);
      entries <= 0
  }

  /** The branch arithmetic of `is_last_batch` agrees with the reference reading. */
  lemma PagesCoverFoundWhenPositive(foundPosts: nat, postsPerPage: int, paged: nat)
    requires foundPosts > 0 && foundPosts > postsPerPage
    ensures PagesCoverFound(foundPosts, postsPerPage, paged)
            <==> (if paged > 1 then foundPosts - postsPerPage * paged else foundPosts) <= 0
  {
    if paged <= 1 {
      assert Max1(paged) == 1;
    } else if postsPerPage < 0 {
      assert postsPerPage * paged < 0;
    }
  }

  /** A product with a non-negative factor grows with the other factor. */
  lemma MulMonotone(a: int, b: nat, c: nat)
    requires a >= 0 && b <= c
    ensures a * b <= a * c
  {
    var k := c - b;
    assert a * c == a * b + a * k;
  }

  /** Once a page is the last batch, every later page is too. */
  lemma LastBatchMonotoneInPage(foundPosts: nat, postCount: nat, postsPerPage: int, paged: nat, later: nat)
    requires paged <= later
    requires IsLastBatch(foundPosts, postCount, postsPerPage, paged)
    ensures IsLastBatch(foundPosts, postCount, postsPerPage, later)
  {
    if foundPosts > 0 {
      if postsPerPage >= 0 {
        MulMonotone(postsPerPage, Max1(paged), Max1(later));
      }
    }
  }

  /** On the first page, more posts than fit on one page means more batches follow. */
  lemma FirstPageOfSeveralIsNotLast(foundPosts: nat, postCount: nat, postsPerPage: int, paged: nat)
    requires paged <= 1
    requires foundPosts > 0 && foundPosts > postsPerPage
    ensures !IsLastBatch(foundPosts, postCount, postsPerPage, paged)
  {
  }
}
