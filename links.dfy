/** Navigation links for a page: previous, self and next, each a GET on the
    default route with the page's size. */
module Links {
  import opened Int32
  import opened Paging
  import opened Counting

  /** A hypermedia link: where it points, what it is relative to the
      current page, and the HTTP method to use. */
  datatype LinkInfo = LinkInfo(Href: string, Rel: string, Method: string)

  /** `IUrlHelper.Link(routeName, new { PageNumber, PageSize })`: the URL the
      web framework generates for a named route and its two paging values.
      It is not modelled beyond being a function of those three. */
  type UrlHelper = (string, int32, int32) -> string

  const DefaultRoute: string := "default"
  const PreviousRel: string := "previousPage"
  const SelfRel: string := "self"
  const NextRel: string := "nextPage"
  const GetMethod: string := "GET"

  /** A link to page `pageNumber` of size `pageSize` on route `routeName`. */
  function CreateLink(urlHelper: UrlHelper, routeName: string, pageNumber: int32, pageSize: int32,
                      rel: string, httpMethod: string): (l: LinkInfo)
    ensures l.Rel == rel && l.Method == httpMethod
    ensures l.Href == urlHelper(routeName, pageNumber, pageSize)
  {
    LinkInfo(urlHelper(routeName, pageNumber, pageSize), rel, httpMethod)
  }

  /** Number of links in `links` whose relation is `rel`. */
  function CountRel(links: seq<LinkInfo>, rel: string): (n: nat)
    ensures n <= |links|
    ensures n == 0 <==> forall i :: 0 <= i < |links| ==> links[i].Rel != rel
  {
    if links == [] then 0
    else CountRel(links[..|links| - 1], rel) + (if links[|links| - 1].Rel == rel then 1 else 0)
  }

  /** The links for `list`: a previous-page link when there is a page
      before, always a self link, and a next-page link when there is a
      page after, in that order. */
  method GetLinks<T>(urlHelper: UrlHelper, list: PagedList<T>) returns (links: seq<LinkInfo>)
    requires list.PageSize != 0
    ensures |links| == 1 + Indicator(list.HasPreviousPage()) + Indicator(list.HasNextPage())
    ensures 1 <= |links| <= 3
    ensures CountRel(links, SelfRel) == 1
    ensures CountRel(links, PreviousRel) == Indicator(list.HasPreviousPage())
    ensures CountRel(links, NextRel) == Indicator(list.HasNextPage())
    ensures forall i :: 0 <= i < |links| ==>
              links[i].Method == GetMethod && links[i].Rel in {PreviousRel, SelfRel, NextRel}
    ensures list.HasPreviousPage() ==>
              links[0] == CreateLink(urlHelper, DefaultRoute, list.PageNumber - 1, list.PageSize, PreviousRel, GetMethod)
    ensures links[Indicator(list.HasPreviousPage())]
              == CreateLink(urlHelper, DefaultRoute, list.PageNumber, list.PageSize, SelfRel, GetMethod)
    ensures list.HasNextPage() ==>
              links[|links| - 1] == CreateLink(urlHelper, DefaultRoute, list.PageNumber + 1, list.PageSize, NextRel, GetMethod)
    ensures list.PageNumber == 1 && list.TotalPages() <= 1 ==>
              links == [CreateLink(urlHelper, DefaultRoute, 1, list.PageSize, SelfRel, GetMethod)]
  {
    links := [];
    if list.HasPreviousPage() {
      links := links + [CreateLink(urlHelper, DefaultRoute, list.PreviousPageNumber(), list.PageSize, PreviousRel, GetMethod)];
    }
    links := links + [CreateLink(urlHelper, DefaultRoute, list.PageNumber, list.PageSize, SelfRel, GetMethod)];
    if list.HasNextPage() {
      links := links + [CreateLink(urlHelper, DefaultRoute, list.NextPageNumber(), list.PageSize, NextRel, GetMethod)];
    }
  }
}
