/** Addresses within pages of any size. */
module Pages {

  /** Start of the page that holds `a`. */
  function Base(a: nat, page: nat): (b: nat)
    requires page > 0
    ensures b <= a < b + page
  {
    if a < page then 0 else page + Base(a - page, page)
  }

  /** Position of `a` within its page. */
  function Offset(a: nat, page: nat): (o: nat)
    requires page > 0
    ensures o < page
  {
    a - Base(a, page)
  }

  /** The addresses that belong to the page of `a` are the `page` addresses from its start. */
  lemma {:induction false} SamePage(a: nat, c: nat, page: nat)
    requires page > 0
    ensures Base(c, page) == Base(a, page) <==> Base(a, page) <= c < Base(a, page) + page
  {
    if page <= a && page <= c {
      SamePage(a - page, c - page, page);
    }
  }
}
