/** The book records the search provider returns, reduced to the fields the
    view reads. */
module Books {

  import opened Wrappers

  /** One entry of the response's `items`, seen through its `volumeInfo`.
      A field the provider left out is `None`. */
  datatype Volume = Volume(
    authors: Option<seq<string>>,
    title: string,
    description: Option<string>,
    publishedDate: Option<string>)
}
