/**
 * The new-releases listing: the embedded "__NEXT_DATA__" state of the
 * listing page and its mapping to lightweight candidate records.
 */
module Listing {
  import opened Wrappers
  import opened Markup

  /** A candidate title as the listing shows it. */
  datatype Comic1 = Comic1(id: int, title: string, price: int)

  /** The price fields of one way of buying a book. */
  datatype Price = Price(listPrice: int, sellingPrice: int)

  datatype PriceInfo = PriceInfo(purchase: Price, rental: Option<Price>)

  datatype BookTitle = BookTitle(main: string)

  datatype Book = Book(id: int, title: BookTitle, priceInfo: PriceInfo)

  datatype BookShell = BookShell(book: Book)

  /** One entry of `newReleases.items`. */
  datatype Item = Item(bookShell: BookShell)

  /** One prefetched query of the dehydrated state; only `state.data.newReleases.items` is kept. */
  datatype Query = Query(newReleasesItems: seq<Item>)

  /** The parsed `props.pageProps.dehydratedState` object. */
  datatype DehydratedState = DehydratedState(queries: seq<Query>)

  /** The listing page, reduced to its `#__NEXT_DATA__` element. */
  datatype ListingPage = ListingPage(nextData: Option<Script<DehydratedState>>)

  datatype ListingError =
    | ListingScript(cause: ScriptError)  // `#__NEXT_DATA__` absent, empty or malformed
    | NoQueries                          // `queries[0]` does not exist

  /** Maps one listing item to a candidate: id, main title, final selling price. */
  function ToComic1(item: Item): (c: Comic1)
    ensures c.id == item.bookShell.book.id
    ensures c.title == item.bookShell.book.title.main
    ensures c.price == item.bookShell.book.priceInfo.purchase.sellingPrice
  {
    var book := item.bookShell.book;
    Comic1(book.id, book.title.main, book.priceInfo.purchase.sellingPrice)
  }

  /** `items.map(...)`: one candidate per item, in the same order. */
  function MapItems(items: seq<Item>): (r: seq<Comic1>)
    ensures |r| == |items|
    ensures forall i :: 0 <= i < |items| ==> r[i] == ToComic1(items[i])
  {
    if items == [] then [] else [ToComic1(items[0])] + MapItems(items[1..])
  }

  /** The whole of the listing extraction. */
  function ExtractListing(page: ListingPage): (r: Result<seq<Comic1>, ListingError>)
    ensures ReadScript(page.nextData).Failure? ==> r == Failure(ListingScript(ReadScript(page.nextData).error))
    ensures r.Success? <==> ReadScript(page.nextData).Success? && |ReadScript(page.nextData).value.queries| > 0
    ensures ReadScript(page.nextData).Success? && |ReadScript(page.nextData).value.queries| == 0 ==> r == Failure(NoQueries)
    ensures r.Success? ==>
      var items := ReadScript(page.nextData).value.queries[0].newReleasesItems;
      |r.value| == |items|
      && forall i :: 0 <= i < |items| ==>
        r.value[i].id == items[i].bookShell.book.id
        && r.value[i].title == items[i].bookShell.book.title.main
        && r.value[i].price == items[i].bookShell.book.priceInfo.purchase.sellingPrice
  {
    match ReadScript(page.nextData)
    case Failure(e) => Failure(ListingScript(e))
    case Success(state) =>
      if |state.queries| == 0 then Failure(NoQueries)
      else Success(MapItems(state.queries[0].newReleasesItems))
  }

}
