/** The blog-post record that the crawler writes as a CSV row and the indexer reads back. */
module Records {

  /** One row of the table with columns source, title, url, date, content. */
  datatype Row = Row(source: string, title: string, url: string, date: string, content: string)
}
