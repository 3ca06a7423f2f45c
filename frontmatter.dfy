/**
  Frontmatter extraction and validation: from the YAML block found at the top
  of a markdown document to the record of fields the sync uses, or an error.
  The YAML scanner itself is not modelled; its output is the input here.
*/
module Frontmatter {
  import opened Wrappers
  import opened Errors
  import Rfc3339

  /** A parsed YAML node, one constructor per kind the YAML library produces. */
  datatype Yaml =
    | Real(repr: string)
    | Integer(i: int)
    | String(s: string)
    | Boolean(b: bool)
    | Array(items: seq<Yaml>)
    | Hash(entries: map<Yaml, Yaml>)
    | Alias(index: nat)
    | Null
    | BadValue

  /** What splitting a document yields: a scan error, or the optional frontmatter node and the body after it. */
  datatype ParseOutcome = ScanFailed | Parsed(front: Option<Yaml>, body: string)

  datatype Frontmatter = Frontmatter(
    title: string,
    published: Option<bool>,
    tags: Option<string>,
    date: Option<string>,
    series: Option<string>,
    canonicalUrl: Option<string>,
    coverImage: Option<string>)

  /** The default record with the given title, every optional field absent. */
  function WithTitle(title: string): Frontmatter {
    Frontmatter(title, None, None, None, None, None, None)
  }

  datatype PublishStatus = Published | Draft

  /** Only an explicit `published: true` publishes; absent or false is a draft. */
  function PublishStatusOf(fm: Frontmatter): (r: PublishStatus)
    ensures r == Published <==> fm.published == Some(true)
    ensures r == Draft <==> fm.published != Some(true)
  {
    if fm.published.GetOr(false) then Published else Draft
  }

  /** The mapping holds a string under `key`. */
  predicate HoldsString(h: map<Yaml, Yaml>, key: string) {
    String(key) in h && h[String(key)].String?
  }

  /** The mapping holds a boolean under `key`. */
  predicate HoldsBool(h: map<Yaml, Yaml>, key: string) {
    String(key) in h && h[String(key)].Boolean?
  }

  /** Looks up `key` and keeps the value only when it is a string. */
  function StringField(h: map<Yaml, Yaml>, key: string): (r: Option<string>)
    ensures r.Some? <==> HoldsString(h, key)
    ensures r.Some? ==> h[String(key)] == String(r.value)
  {
    if String(key) in h then
      match h[String(key)]
      case String(s) => Some(s)
      case _ => None
    else None
  }

  /** Looks up `key` and keeps the value only when it is a boolean. */
  function BoolField(h: map<Yaml, Yaml>, key: string): (r: Option<bool>)
    ensures r.Some? <==> HoldsBool(h, key)
    ensures r.Some? ==> h[String(key)] == Boolean(r.value)
  {
    if String(key) in h then
      match h[String(key)]
      case Boolean(b) => Some(b)
      case _ => None
    else None
  }

  /**
    Builds the record from a frontmatter node. The node must be a mapping with
    a string `title`; a string `date` must be an RFC 3339 date-time. Every
    other key is optional, and a value of the wrong type counts as absent.
  */
  function FromFile(name: string, metadata: Yaml): (r: Result<Frontmatter, Error>)
    ensures !metadata.Hash? ==> r == Failure(MalformedFrontmatter(name))
    ensures metadata.Hash? && !HoldsString(metadata.entries, "title") ==>
              r == Failure(MissingTitle(name))
    ensures (&& metadata.Hash? && HoldsString(metadata.entries, "title") && HoldsString(metadata.entries, "date")
             && !Rfc3339.IsDateTime(metadata.entries[String("date")].s)) ==>
              r == Failure(InvalidDate(name, metadata.entries[String("date")].s))
    ensures r.Success? <==>
              && metadata.Hash?
              && HoldsString(metadata.entries, "title")
              && (HoldsString(metadata.entries, "date") ==> Rfc3339.IsDateTime(metadata.entries[String("date")].s))
    ensures r.Success? ==>
              var h, fm := metadata.entries, r.value;
              && h[String("title")] == String(fm.title)
              && (fm.published.Some? <==> HoldsBool(h, "published"))
              && (fm.published.Some? ==> h[String("published")] == Boolean(fm.published.value))
              && (fm.tags.Some? <==> HoldsString(h, "tags"))
              && (fm.tags.Some? ==> h[String("tags")] == String(fm.tags.value))
              && (fm.date.Some? <==> HoldsString(h, "date"))
              && (fm.date.Some? ==> h[String("date")] == String(fm.date.value))
              && (fm.series.Some? <==> HoldsString(h, "series"))
              && (fm.series.Some? ==> h[String("series")] == String(fm.series.value))
              && (fm.canonicalUrl.Some? <==> HoldsString(h, "canonical_url"))
              && (fm.canonicalUrl.Some? ==> h[String("canonical_url")] == String(fm.canonicalUrl.value))
              && (fm.coverImage.Some? <==> HoldsString(h, "cover_image"))
              && (fm.coverImage.Some? ==> h[String("cover_image")] == String(fm.coverImage.value))
  {
    match metadata
    case Hash(h) =>
      (match StringField(h, "title")
       case None => Failure(MissingTitle(name))
       case Some(title) =>
         var published := BoolField(h, "published");
         var tags := StringField(h, "tags");
         var date := StringField(h, "date");
         if date.Some? && !Rfc3339.IsDateTime(date.value) then
           Failure(InvalidDate(name, date.value))
         else
           Success(Frontmatter(title, published, tags, date, StringField(h, "series"),
                               StringField(h, "canonical_url"), StringField(h, "cover_image"))))
    case _ => Failure(MalformedFrontmatter(name))
  }

  /**
    Splits off and validates the frontmatter of document `name`. Fails when the
    scanner fails or no block was found; otherwise it is `FromFile` on the block,
    paired with the body.
  */
  function Extract(name: string, parsed: ParseOutcome): (r: Result<(Frontmatter, string), Error>)
    ensures parsed.ScanFailed? ==> r == Failure(FrontmatterSyntax)
    ensures parsed.Parsed? && parsed.front.None? ==> r == Failure(MissingFrontmatter(name))
    ensures r.Success? <==> parsed.Parsed? && parsed.front.Some? && FromFile(name, parsed.front.value).Success?
    ensures r.Success? ==> FromFile(name, parsed.front.value) == Success(r.value.0) && r.value.1 == parsed.body
    ensures parsed.Parsed? && parsed.front.Some? && FromFile(name, parsed.front.value).Failure? ==>
              r == Failure(FromFile(name, parsed.front.value).error)
  {
    match parsed
    case ScanFailed => Failure(FrontmatterSyntax)
    case Parsed(front, body) =>
      match front
      case None => Failure(MissingFrontmatter(name))
      case Some(metadata) =>
        match FromFile(name, metadata)
        case Failure(e) => Failure(e)
        case Success(fm) => Success((fm, body))
  }

  /** A mapping holding only `title: foo` yields the default record titled "foo". */
  lemma TitleOnly(name: string)
    ensures FromFile(name, Hash(map[String("title") := String("foo")])) == Success(WithTitle("foo"))
  {
  }

  /** A date of "..." is rejected, "2021-01-01T00:00:00Z" is kept. */
  lemma DateExamples(name: string)
    ensures FromFile(name, Hash(map[String("title") := String("foo"), String("date") := String("...")]))
              == Failure(InvalidDate(name, "..."))
    ensures FromFile(name, Hash(map[String("title") := String("foo"), String("date") := String("2021-01-01T00:00:00Z")]))
              == Success(Frontmatter("foo", None, None, Some("2021-01-01T00:00:00Z"), None, None, None))
  {
    Rfc3339.RejectsExamples();
    Rfc3339.AcceptsExample();
  }
}
