/** The news record (a dict in the scraper) passed from the page scraper through main to the DAO. */
module Items {
  import opened Base
  import opened Calendar

  datatype News = News(
    title: string,
    text: string,
    topic: Option<string>,
    cluster: string,
    datetime: Option<DateTime>,
    publisher: Option<string>)
}
