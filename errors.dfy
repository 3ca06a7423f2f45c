/**
  The errors a push run can end with. In the tool they are all carried by one
  dynamic error type; here each source of failure is its own constructor, and
  the file name the message mentions is kept.
*/
module Errors {

  datatype Error =
    | FetchFailed                                 // listing the account's articles failed
    | ReadFailed                                  // a candidate file could not be read as text
    | FrontmatterSyntax                           // the YAML scanner rejected the frontmatter block
    | MissingFrontmatter(name: string)            // the document has no frontmatter block
    | MalformedFrontmatter(name: string)          // the block is not a key/value mapping
    | MissingTitle(name: string)                  // `title` is absent or not a string
    | InvalidDate(name: string, value: string)    // `date` is a string but not an RFC 3339 date-time
    | TransportFailed                             // a POST or PUT failed at the transport level after retries
}
