/**
  The encoding gate of `fetch_feed` and `iconv_replace`: text fields are
  converted to UTF-8 only when the channel declares some other encoding,
  NULL fields are never touched, and a failing conversion ends the process.
 */
module Encoding {
  import opened CStrings
  import opened Feed

  /** "utf-8", the declared encoding that needs no conversion. */
  const Utf8Name: CStr := [0x75, 0x74, 0x66, 0x2d, 0x38]

  /**
    Whether `fetch_feed` opens a converter: the channel declares an
    encoding and `strcasecmp` finds it different from "utf-8".
   */
  function ConversionEnabled(encoding: Option<CStr>): (on: bool)
    ensures on <==> encoding.Some? && !CaseInsensitiveEq(encoding.value, Utf8Name)
  {
    if encoding.None? then false
    else
      StrCaseCmpZeroIff(encoding.value, Utf8Name);
      StrCaseCmp(encoding.value, Utf8Name) != 0
  }

  /**
    An `iconv_t`: `(iconv_t) -1` when conversion is off, or an open
    converter whose `iconv()` call either yields the converted string or
    fails (None).
   */
  datatype Converter = NoConversion | Open(convert: CStr -> Option<CStr>)

  /** `iconv_open("utf-8", name)`: a converter, or None when the encoding is not supported. */
  type IconvOpen = CStr -> Option<CStr -> Option<CStr>>

  datatype Opened = Opened(cd: Converter) | OpenFailed

  /** The converter set-up of `fetch_feed`; OpenFailed makes it return 1. */
  function OpenConverter(encoding: Option<CStr>, iconvOpen: IconvOpen): (r: Opened)
    ensures r.OpenFailed? <==> ConversionEnabled(encoding) && iconvOpen(encoding.value).None?
    ensures r.Opened? ==> (r.cd.Open? <==> ConversionEnabled(encoding))
    ensures ConversionEnabled(encoding) && iconvOpen(encoding.value).Some? ==>
      r == Opened(Open(iconvOpen(encoding.value).value))
  {
    if ConversionEnabled(encoding) then
      match iconvOpen(encoding.value)
      case None => OpenFailed
      case Some(f) => Opened(Open(f))
    else
      Opened(NoConversion)
  }

  /** The result of a step that may end the whole process through `err(1, ...)`. */
  datatype Converted<T> = Converted(value: T) | Fatal

  /** Whether converting this field ends the process. */
  predicate FailsOn(cd: Converter, field: Option<CStr>) {
    cd.Open? && field.Some? && cd.convert(field.value).None?
  }

  /**
    `iconv_replace`: with no converter, or on a NULL field, nothing
    happens; otherwise the field is replaced by its conversion, and a
    failed conversion is fatal.
   */
  function IconvReplace(cd: Converter, field: Option<CStr>): (r: Converted<Option<CStr>>)
    ensures cd.NoConversion? || field.None? ==> r == Converted(field)
    ensures r.Fatal? <==> FailsOn(cd, field)
    ensures r.Converted? ==> (r.value.Some? <==> field.Some?)
    ensures cd.Open? && field.Some? && r.Converted? ==> r.value == cd.convert(field.value)
  {
    if cd.NoConversion? || field.None? then Converted(field)
    else
      match cd.convert(field.value)
      case None => Fatal
      case Some(s) => Converted(Some(s))
  }

  /**
    The five conversions at the head of each loop iteration: title,
    description, link, guid and enclosure URL. The publication date and
    the permalink flag are left alone.
   */
  function ConvertItem(cd: Converter, item: FeedItem): (r: Converted<FeedItem>)
    ensures cd.NoConversion? ==> r == Converted(item)
    ensures r.Fatal? <==> FailsOn(cd, item.title) || FailsOn(cd, item.description) || FailsOn(cd, item.link)
                          || FailsOn(cd, item.guid) || FailsOn(cd, item.enclosureUrl)
    ensures r.Converted? ==>
      && IconvReplace(cd, item.title) == Converted(r.value.title)
      && IconvReplace(cd, item.description) == Converted(r.value.description)
      && IconvReplace(cd, item.link) == Converted(r.value.link)
      && IconvReplace(cd, item.guid) == Converted(r.value.guid)
      && IconvReplace(cd, item.enclosureUrl) == Converted(r.value.enclosureUrl)
    ensures r.Converted? ==>
      && (r.value.title.Some? <==> item.title.Some?)
      && (r.value.description.Some? <==> item.description.Some?)
      && (r.value.link.Some? <==> item.link.Some?)
      && (r.value.guid.Some? <==> item.guid.Some?)
      && (r.value.enclosureUrl.Some? <==> item.enclosureUrl.Some?)
      && r.value.pubDate == item.pubDate
      && r.value.guidIsPermaLink == item.guidIsPermaLink
  {
    match IconvReplace(cd, item.title)
    case Fatal => Fatal
    case Converted(title) =>
      match IconvReplace(cd, item.description)
      case Fatal => Fatal
      case Converted(description) =>
        match IconvReplace(cd, item.link)
        case Fatal => Fatal
        case Converted(link) =>
          match IconvReplace(cd, item.guid)
          case Fatal => Fatal
          case Converted(guid) =>
            match IconvReplace(cd, item.enclosureUrl)
            case Fatal => Fatal
            case Converted(enclosureUrl) =>
              Converted(item.(title := title, description := description, link := link,
                              guid := guid, enclosureUrl := enclosureUrl))
  }

  /**
    The seven channel conversions done before the item loop; the items,
    the encoding and the publication date are left alone.
   */
  function ConvertChannel(cd: Converter, ch: Channel): (r: Converted<Channel>)
    ensures cd.NoConversion? ==> r == Converted(ch)
    ensures r.Fatal? <==> FailsOn(cd, ch.title) || FailsOn(cd, ch.description) || FailsOn(cd, ch.link)
                          || FailsOn(cd, ch.imageTitle) || FailsOn(cd, ch.imageUrl)
                          || FailsOn(cd, ch.imageLink) || FailsOn(cd, ch.imageDescription)
    ensures r.Converted? ==>
      && IconvReplace(cd, ch.title) == Converted(r.value.title)
      && IconvReplace(cd, ch.description) == Converted(r.value.description)
      && IconvReplace(cd, ch.link) == Converted(r.value.link)
      && IconvReplace(cd, ch.imageTitle) == Converted(r.value.imageTitle)
      && IconvReplace(cd, ch.imageUrl) == Converted(r.value.imageUrl)
      && IconvReplace(cd, ch.imageLink) == Converted(r.value.imageLink)
      && IconvReplace(cd, ch.imageDescription) == Converted(r.value.imageDescription)
    ensures r.Converted? ==> r.value.items == ch.items && r.value.encoding == ch.encoding && r.value.pubDate == ch.pubDate
  {
    match IconvReplace(cd, ch.title)
    case Fatal => Fatal
    case Converted(title) =>
      match IconvReplace(cd, ch.description)
      case Fatal => Fatal
      case Converted(description) =>
        match IconvReplace(cd, ch.link)
        case Fatal => Fatal
        case Converted(link) =>
          match IconvReplace(cd, ch.imageTitle)
          case Fatal => Fatal
          case Converted(imageTitle) =>
            match IconvReplace(cd, ch.imageUrl)
            case Fatal => Fatal
            case Converted(imageUrl) =>
              match IconvReplace(cd, ch.imageLink)
              case Fatal => Fatal
              case Converted(imageLink) =>
                match IconvReplace(cd, ch.imageDescription)
                case Fatal => Fatal
                case Converted(imageDescription) =>
                  Converted(ch.(title := title, description := description, link := link,
                                imageTitle := imageTitle, imageUrl := imageUrl,
                                imageLink := imageLink, imageDescription := imageDescription))
  }

  /** A converter that returns every string unchanged. */
  function IdentityConverter(): Converter {
    Open(s => Some(s))
  }

  /** Converting with a converter that changes nothing leaves the item exactly as it was. */
  lemma IdentityConversionKeepsItem(item: FeedItem)
    ensures ConvertItem(IdentityConverter(), item) == Converted(item)
  {
  }

  /** Converting with a converter that changes nothing leaves the channel exactly as it was. */
  lemma IdentityConversionKeepsChannel(ch: Channel)
    ensures ConvertChannel(IdentityConverter(), ch) == Converted(ch)
  {
  }
}
