/** The paging state behind the core's two table widgets, `TableComponent` and
    `TableOfContents`, which share it line for line: the current page, the page size and the
    total element count, refreshed from a page loader, and the state of the pager controls. */
module Pagination {
  import opened Wrappers

  /** A loader's answer: the page it returned, the page size, the total number of elements
      and the page's content. */
  datatype PageResponse<T> = PageResponse(page: int, size: int, totalElements: int, content: seq<T>)

  /** `(long) Math.ceil((double) total / size)` for a positive size: the number of pages
      needed to hold `total` elements. */
  function TotalPages(total: int, size: int): (r: int)
    requires size > 0
    ensures total > 0 ==> (r - 1) * size < total <= r * size
    ensures total <= 0 ==> r * size <= 0 && total < (r + 1) * size
  {
    (total + size - 1) / size
  }

  /** The Next button is enabled only when a further page holds at least one element, and
      the Previous button only when the page before is not negative. */
  lemma {:induction false} ControlsMatchContent(currentPage: int, total: int, size: int)
    requires size > 0
    ensures !(currentPage >= TotalPages(total, size) - 1) ==> (currentPage + 1) * size < total
    ensures !(currentPage <= 0) ==> currentPage - 1 >= 0
    ensures total <= 0 ==> currentPage >= 0 ==> currentPage >= TotalPages(total, size) - 1
  {
    var pages := TotalPages(total, size);
    if !(currentPage >= pages - 1) {
      assert currentPage + 1 <= pages - 1;
      if total > 0 {
        assert (pages - 1) * size < total;
        MultiplyMonotone(currentPage + 1, pages - 1, size);
      } else {
        assert pages * size <= 0;
        assert pages <= 0;
        MultiplyMonotone(currentPage + 1, pages - 1, size);
        assert (pages - 1) * size < total by {
          assert (pages - 1) * size == pages * size - size;
        }
      }
    }
    if total <= 0 && currentPage >= 0 {
      assert pages * size <= 0;
    }
  }

  lemma MultiplyMonotone(a: int, b: int, size: int)
    requires a <= b && size > 0
    ensures a * size <= b * size
  {
    assert b * size - a * size == (b - a) * size;
  }

  /** The text shown on the pager: "Page <current + 1> of <pages, at least 1>". */
  datatype PageInfo = PageInfo(shownPage: int, ofPages: int)

  /** Every response a loader gives has a positive size (the loaders echo the size asked for). */
  ghost predicate PositiveSizes<T>(loader: (int, int) -> Option<PageResponse<T>>) {
    forall page, size :: loader(page, size).Some? ==> loader(page, size).value.size > 0
  }

  /** `text.substring(0, 1).toUpperCase() + text.substring(1)`; the empty string makes
      `substring(0, 1)` throw. Upper-casing is modelled for ASCII letters. */
  function Capitalize(text: string): (r: Result<string, string>)
    ensures r.Failure? <==> text == []
    ensures r.Success? ==> |r.value| == |text| && r.value[0] == Upper(text[0]) && r.value[1..] == text[1..]
  {
    if text == [] then Failure("StringIndexOutOfBoundsException")
    else Success([Upper(text[0])] + text[1..])
  }

  function Upper(c: char): char {
    if 'a' <= c <= 'z' then (c as int - 32) as char else c
  }

  /** Capitalizing twice is capitalizing once, and only the first character can change. */
  lemma CapitalizeIsIdempotent(text: string)
    requires text != []
    ensures Capitalize(Capitalize(text).value) == Capitalize(text)
    ensures forall i :: 1 <= i < |text| ==> Capitalize(text).value[i] == text[i]
  {
    var once := Capitalize(text).value;
    assert once[1..] == text[1..];
    assert Upper(Upper(text[0])) == Upper(text[0]);
  }

  class PagedTable<T> {
    const loader: (int, int) -> Option<PageResponse<T>>
    var currentPage: int
    var pageSize: int
    var totalElements: int
    /** The rows shown. */
    var items: seq<T>
    /** The pager text; empty until a page has been loaded. */
    var pageInfo: Option<PageInfo>
    var prevDisabled: bool
    var nextDisabled: bool

    ghost predicate Valid()
      reads this
    {
      pageSize > 0 && PositiveSizes(loader)
    }

    /** The widget starts on page 0 with pages of 10 and loads page 0. */
    constructor(loader: (int, int) -> Option<PageResponse<T>>)
      requires PositiveSizes(loader)
      ensures Valid() && this.loader == loader
      ensures loader(0, 10).None? ==>
                currentPage == 0 && pageSize == 10 && totalElements == 0 && items == [] &&
                pageInfo == None && !prevDisabled && !nextDisabled
      ensures loader(0, 10).Some? ==> Loaded(loader(0, 10).value)
    {
      this.loader := loader;
      currentPage := 0;
      pageSize := 10;
      totalElements := 0;
      items := [];
      pageInfo := None;
      prevDisabled := false;
      nextDisabled := false;
      new;
      LoadPage(0);
    }

    /** The widget shows `response` and its controls match it. */
    ghost predicate Loaded(response: PageResponse<T>)
      reads this
      requires pageSize > 0
    {
      currentPage == response.page && pageSize == response.size && totalElements == response.totalElements &&
      items == response.content &&
      pageInfo == Some(PageInfo(currentPage + 1, if TotalPages(totalElements, pageSize) > 1 then TotalPages(totalElements, pageSize) else 1)) &&
      prevDisabled == (currentPage <= 0) &&
      nextDisabled == (currentPage >= TotalPages(totalElements, pageSize) - 1)
    }

    /** `loadPage(page)`: a negative page, or a loader answering null, changes nothing;
        otherwise the widget takes the response's page, size, total and content and updates
        its controls. */
    method LoadPage(page: int)
      requires Valid()
      modifies this
      ensures Valid()
      ensures page < 0 || loader(page, old(pageSize)).None? ==>
                currentPage == old(currentPage) && pageSize == old(pageSize) && totalElements == old(totalElements) &&
                items == old(items) && pageInfo == old(pageInfo) &&
                prevDisabled == old(prevDisabled) && nextDisabled == old(nextDisabled)
      ensures page >= 0 && loader(page, old(pageSize)).Some? ==> Loaded(loader(page, old(pageSize)).value)
    {
      if page < 0 {
        return;
      }
      var response := loader(page, pageSize);
      if response.None? {
        return;
      }
      currentPage := response.value.page;
      pageSize := response.value.size;
      totalElements := response.value.totalElements;
      items := response.value.content;
      UpdatePaginationState();
    }

    /** `updatePaginationState()`: label and buttons follow the current page and the page count. */
    method UpdatePaginationState()
      requires pageSize > 0
      modifies this
      ensures currentPage == old(currentPage) && pageSize == old(pageSize) && totalElements == old(totalElements)
      ensures items == old(items)
      ensures pageInfo == Some(PageInfo(currentPage + 1, if TotalPages(totalElements, pageSize) > 1 then TotalPages(totalElements, pageSize) else 1))
      ensures prevDisabled == (currentPage <= 0)
      ensures nextDisabled == (currentPage >= TotalPages(totalElements, pageSize) - 1)
    {
      var totalPages := TotalPages(totalElements, pageSize);
      pageInfo := Some(PageInfo(currentPage + 1, if totalPages > 1 then totalPages else 1));
      prevDisabled := currentPage <= 0;
      nextDisabled := currentPage >= totalPages - 1;
    }

    /** The Previous button's action. */
    method Previous()
      requires Valid()
      modifies this
      ensures Valid()
      ensures old(currentPage) - 1 < 0 || loader(old(currentPage) - 1, old(pageSize)).None? ==>
                currentPage == old(currentPage) && totalElements == old(totalElements) && items == old(items)
      ensures old(currentPage) - 1 >= 0 && loader(old(currentPage) - 1, old(pageSize)).Some? ==>
                Loaded(loader(old(currentPage) - 1, old(pageSize)).value)
    {
      LoadPage(currentPage - 1);
    }

    /** The Next button's action. */
    method Next()
      requires Valid()
      modifies this
      ensures Valid()
      ensures old(currentPage) + 1 < 0 || loader(old(currentPage) + 1, old(pageSize)).None? ==>
                currentPage == old(currentPage) && totalElements == old(totalElements) && items == old(items)
      ensures old(currentPage) + 1 >= 0 && loader(old(currentPage) + 1, old(pageSize)).Some? ==>
                Loaded(loader(old(currentPage) + 1, old(pageSize)).value)
    {
      LoadPage(currentPage + 1);
    }

    /** `reload()`: loads the current page again. */
    method Reload()
      requires Valid()
      modifies this
      ensures Valid()
      ensures old(currentPage) < 0 || loader(old(currentPage), old(pageSize)).None? ==>
                currentPage == old(currentPage) && totalElements == old(totalElements) && items == old(items)
      ensures old(currentPage) >= 0 && loader(old(currentPage), old(pageSize)).Some? ==>
                Loaded(loader(old(currentPage), old(pageSize)).value)
    {
      LoadPage(currentPage);
    }
  }
}
