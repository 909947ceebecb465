/**
 * The browser as the scraper observes it. Selenium calls become total
 * functions: a query that matches nothing and a query that raises both read
 * as `None`, which is how every per-selector `try/except: continue` in the
 * scraper treats them.
 */
module Browser {
  import opened Wrappers

  /** One rendered DOM node (a `WebElement`). */
  datatype Element = Element(
    /** `find_element(By.CSS_SELECTOR, sel).text` for a descendant, unstripped;
        `None` when no descendant matches or reading it raises. */
    query: string -> Option<string>,
    /** The node's own `.text`, unstripped; `None` when reading it raises. */
    ownText: Option<string>,
    /** `get_attribute("aria-label")`; `None` when absent or raising. */
    ariaLabel: Option<string>,
    /** `find_element(By.CSS_SELECTOR, "time").get_attribute("datetime")`;
        `None` when there is no `time` descendant, no attribute, or it raises. */
    timeDatetime: Option<string>
  )

  /** The document at one moment: `find_elements` for a CSS selector or an
      XPath query; `None` when the call raises. */
  datatype Page = Page(findAll: string -> Option<seq<Element>>)

  /** `find_elements(sel)` produced at least one node. */
  function NonEmptyMatch(page: Page, sel: string): (r: Option<seq<Element>>)
    ensures r.Some? <==> page.findAll(sel).Some? && |page.findAll(sel).value| > 0
    ensures r.Some? ==> r == page.findAll(sel)
  {
    match page.findAll(sel)
    case Some(es) => if |es| > 0 then Some(es) else None
    case None => None
  }

  /** `find_element(sel)` (singular) succeeds exactly when some node matches. */
  predicate HasMatch(page: Page, sel: string) {
    NonEmptyMatch(page, sel).Some?
  }
}
