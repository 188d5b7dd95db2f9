/** The bank logic of `CharacterAPI` (work/api.py): reading the bank page
    by page, sizing a withdrawal, and the guards of deposit and recycle.
    The bank queries and actions are remote calls; their answers come in as
    inputs. */
module Bank {
  import opened Wrappers

  /** One bank entry. */
  datatype BankItem = BankItem(code: string, quantity: int)

  /** One answer of the bank query: its "data" and "pages" entries, None
      when the key is missing. */
  datatype BankPage = BankPage(data: Option<seq<BankItem>>, pages: Option<int>)

  /** `response.get("data", [])`. */
  function PageItems(p: BankPage): seq<BankItem>
  {
    p.data.GetOr([])
  }

  /** The items of pages 1 to `n`, in page order. */
  function PagesThrough(fetch: int -> BankPage, n: int): seq<BankItem>
    decreases n
  {
    if n < 1 then [] else PagesThrough(fetch, n - 1) + PageItems(fetch(n))
  }

  /** The number of pages read: the "pages" entry of the first answer (1
      when missing), and page 1 in any case, since the loop over the later
      pages does not run for a count below 2. */
  function PageCount(first: BankPage): (n: int)
    ensures n >= 1
    ensures first.pages.None? ==> n == 1
    ensures first.pages.Some? && first.pages.value >= 1 ==> n == first.pages.value
    ensures first.pages.Some? && first.pages.value < 1 ==> n == 1
  {
    Max(1, first.pages.GetOr(1))
  }

  /** `get_bank_contents`: page 1, then pages 2 to the page count of the
      first answer, concatenated; `fetch(p)` is the answer for page p. */
  method GetBankContents(fetch: int -> BankPage) returns (all: seq<BankItem>)
    ensures all == PagesThrough(fetch, PageCount(fetch(1)))
  {
    var page := 1;
    var response := fetch(page);
    all := PageItems(response);
    var totalPages := response.pages.GetOr(1);
    assert PagesThrough(fetch, 0) == [];
    while page < totalPages
      invariant 1 <= page
      invariant page <= Max(1, totalPages)
      invariant all == PagesThrough(fetch, page)
      decreases totalPages - page
    {
      page := page + 1;
      response := fetch(page);
      all := all + PageItems(response);
    }
  }

  /** Reading more pages only appends: the first pages' items stay in front. */
  lemma {:induction false} PagesExtend(fetch: int -> BankPage, n: int, m: int)
    requires n <= m
    ensures |PagesThrough(fetch, n)| <= |PagesThrough(fetch, m)|
    ensures PagesThrough(fetch, m)[..|PagesThrough(fetch, n)|] == PagesThrough(fetch, n)
    decreases m - n
  {
    if n < m {
      PagesExtend(fetch, n, m - 1);
      if m >= 1 {
        var before := PagesThrough(fetch, m - 1);
        assert PagesThrough(fetch, m) == before + PageItems(fetch(m));
      }
    }
  }

  /** Every item of page p (1 <= p <= n) is in the result, at the offset
      given by the earlier pages. */
  lemma PageInResult(fetch: int -> BankPage, p: int, n: int)
    requires 1 <= p <= n
    ensures var start := |PagesThrough(fetch, p - 1)|;
            start + |PageItems(fetch(p))| <= |PagesThrough(fetch, n)| &&
            PagesThrough(fetch, n)[start..start + |PageItems(fetch(p))|] == PageItems(fetch(p))
  {
    PagesExtend(fetch, p, n);
    var start := |PagesThrough(fetch, p - 1)|;
    var whole := PagesThrough(fetch, n);
    var upTo := PagesThrough(fetch, p);
    assert upTo == PagesThrough(fetch, p - 1) + PageItems(fetch(p));
    assert whole[..|upTo|] == upTo;
    assert whole[start..|upTo|] == upTo[start..];
  }

  // ---------------------------------------------------------------------
  // withdraw_all

  /** The inventory room `withdraw_all` leaves free. */
  const KEPT_FREE: int := 25
  /** The largest stack taken from one bank entry. */
  const MAX_TAKE: int := 100

  /** `not contents`: the list given is used unless it is None or empty, in
      which case the bank is read. */
  function ListUsed(given: Option<seq<BankItem>>, bank: seq<BankItem>): (items: seq<BankItem>)
    ensures given.Some? && |given.value| > 0 ==> items == given.value
    ensures given.None? || |given.value| == 0 ==> items == bank
  {
    if given.None? || |given.value| == 0 then bank else given.value
  }

  /** What an entry would yield: `min(space, min(quantity, 100))`. */
  function TakeOf(item: BankItem, space: int): (take: int)
    ensures take <= MAX_TAKE && take <= space && take <= item.quantity
    ensures take == space || take == item.quantity || take == MAX_TAKE
  {
    Min(space, Min(item.quantity, MAX_TAKE))
  }

  /** Entry i of `items` is one `withdraw_all` withdraws from: it has the
      code, a positive take, and the withdrawal succeeds (`succeeds(i)`). */
  predicate Withdraws(items: seq<BankItem>, code: string, space: int, succeeds: nat -> bool, i: nat)
    requires i < |items|
  {
    items[i].code == code && TakeOf(items[i], space) > 0 && succeeds(i)
  }

  /** `withdraw_all(code, contents)`: scans the list for entries with the
      code; the first whose take is positive and whose withdrawal succeeds
      gives the result, and 0 is returned when there is none. `bank` is
      what `get_bank_contents` would return, `inventorySpace` what
      `get_inventory_space` reports, and `succeeds(i)` whether the
      withdrawal attempted for entry i is answered. */
  method WithdrawAll(code: string, given: Option<seq<BankItem>>, bank: seq<BankItem>,
                     inventorySpace: int, succeeds: nat -> bool) returns (taken: int)
    ensures 0 <= taken <= MAX_TAKE
    ensures taken > 0 ==> taken <= inventorySpace - KEPT_FREE
    ensures var items, space := ListUsed(given, bank), inventorySpace - KEPT_FREE;
            taken == 0 <==> forall i | 0 <= i < |items| :: !Withdraws(items, code, space, succeeds, i)
    ensures var items, space := ListUsed(given, bank), inventorySpace - KEPT_FREE;
            taken != 0 ==>
              exists i | 0 <= i < |items| ::
                Withdraws(items, code, space, succeeds, i) && taken == TakeOf(items[i], space) &&
                forall j | 0 <= j < i :: !Withdraws(items, code, space, succeeds, j)
  {
    var contents := ListUsed(given, bank);
    var space := inventorySpace - KEPT_FREE;
    var i := 0;
    while i < |contents|
      invariant 0 <= i <= |contents|
      invariant forall j | 0 <= j < i :: !Withdraws(contents, code, space, succeeds, j)
    {
      var item := contents[i];
      if item.code == code {
        var quantity := Min(item.quantity, MAX_TAKE);
        var take := Min(space, quantity);
        if take > 0 {
          if succeeds(i) {
            assert Withdraws(contents, code, space, succeeds, i);
            return take;
          }
        }
      }
      i := i + 1;
    }
    return 0;
  }

  // ---------------------------------------------------------------------
  // deposit_to_bank and recycle

  /** The guard shared by `deposit_to_bank` and `recycle`: the request
      sent, or None (nothing is sent) for a quantity that is not positive. */
  function QuantityRequest(code: string, quantity: int): (r: Option<(string, int)>)
    ensures r.None? <==> quantity <= 0
    ensures r.Some? ==> r.value == (code, quantity) && r.value.1 > 0
  {
    if quantity <= 0 then None else Some((code, quantity))
  }
}
