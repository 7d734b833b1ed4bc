/**
  The parts of a parsed RSS/Atom channel and its items that the updater
  reads or rewrites. Every text field is a C string that may be NULL.
 */
module Feed {
  import opened CStrings

  datatype FeedItem = FeedItem(
    title: Option<CStr>,
    description: Option<CStr>,
    link: Option<CStr>,
    guid: Option<CStr>,
    guidIsPermaLink: bool,
    enclosureUrl: Option<CStr>,
    pubDate: Option<CStr>)

  datatype Channel = Channel(
    encoding: Option<CStr>,
    title: Option<CStr>,
    description: Option<CStr>,
    link: Option<CStr>,
    imageTitle: Option<CStr>,
    imageUrl: Option<CStr>,
    imageLink: Option<CStr>,
    imageDescription: Option<CStr>,
    pubDate: Option<CStr>,
    items: seq<FeedItem>)
}
