/**
 * ImageContentHandlerFactory: the content handler for an image MIME type,
 * the type compared without regard to case; types it does not know go to
 * the factory it was chained to, if any.
 */
module ImageContentHandlerFactory {
  import opened DecodeImage
  import opened JavaLang

  /** The image content handlers the factory creates, one per known type. */
  datatype Handler = Png | Bmp | Jpeg | Gif | Targa | PortablePixmap | PortableGraymap | Tiff

  /** A content handler: one of the image handlers, or one some other factory made. */
  datatype ContentHandler =
    | ImageHandler(kind: Handler)
    | OtherHandler(name: string)

  /**
   * A ContentHandlerFactory: an ImageContentHandlerFactory with the factory
   * it was chained to (None for the no-argument constructor), or some other
   * factory, seen as the table of types it knows.
   */
  datatype Factory =
    | ImageFactory(prevFactory: Option<Factory>)
    | OtherFactory(handlers: map<string, ContentHandler>)

  /** The MIME type each handler is created for, as the factory spells it. */
  function MimeType(h: Handler): string
  {
    match h
    case Png => "image/png"
    case Bmp => "image/bmp"
    case Jpeg => "image/jpeg"
    case Gif => "image/gif"
    case Targa => "image/targa"
    case PortablePixmap => "image/x-portable-pixmap"
    case PortableGraymap => "image/x-portable-graymap"
    case Tiff => "image/tiff"
  }

  /** The tests of createContentHandler, in order. */
  function LocalHandler(mime: string): Option<Handler>
  {
    if EqualsIgnoreCase(mime, "image/png") then Some(Png)
    else if EqualsIgnoreCase(mime, "image/bmp") then Some(Bmp)
    else if EqualsIgnoreCase(mime, "image/jpeg") then Some(Jpeg)
    else if EqualsIgnoreCase(mime, "image/gif") then Some(Gif)
    else if EqualsIgnoreCase(mime, "image/targa") then Some(Targa)
    else if EqualsIgnoreCase(mime, "image/x-portable-pixmap") then Some(PortablePixmap)
    else if EqualsIgnoreCase(mime, "image/x-portable-graymap") then Some(PortableGraymap)
    else if EqualsIgnoreCase(mime, "image/tiff") then Some(Tiff)
    else None
  }

  /** createContentHandler: the local handler, else the previous factory's, else null (None). */
  function CreateContentHandler(f: Factory, mime: string): Option<ContentHandler>
  {
    match f
    case OtherFactory(handlers) => if mime in handlers then Some(handlers[mime]) else None
    case ImageFactory(prevFactory) =>
      if LocalHandler(mime).Some? then Some(ImageHandler(LocalHandler(mime).value))
      else if prevFactory.Some? then CreateContentHandler(prevFactory.value, mime)
      else None
  }

  /** Comparing without regard to case is symmetric and transitive. */
  lemma IgnoreCaseEquivalence(a: string, b: string, c: string)
    ensures EqualsIgnoreCase(a, b) ==> EqualsIgnoreCase(b, a)
    ensures EqualsIgnoreCase(a, b) && EqualsIgnoreCase(b, c) ==> EqualsIgnoreCase(a, c)
  {
  }

  /** No two handlers' types are the same, even ignoring case. */
  lemma TypesDistinct(g: Handler, h: Handler)
    requires g != h
    ensures !EqualsIgnoreCase(MimeType(g), MimeType(h))
  {
    if |MimeType(g)| == |MimeType(h)| {
      // the same-length types differ at the first character after "image/"
      assert UpperChar(MimeType(g)[6]) != UpperChar(MimeType(h)[6]);
    }
  }

  /**
   * The local tests pick handler `h` exactly when the type is `h`'s,
   * ignoring case: no earlier test can catch another handler's type.
   */
  lemma LocalHandlerIff(mime: string, h: Handler)
    ensures LocalHandler(mime) == Some(h) <==> EqualsIgnoreCase(mime, MimeType(h))
  {
    if EqualsIgnoreCase(mime, MimeType(h)) {
      forall g | g != h
        ensures !EqualsIgnoreCase(mime, MimeType(g))
      {
        TypesDistinct(g, h);
        IgnoreCaseEquivalence(mime, MimeType(g), MimeType(h));
        IgnoreCaseEquivalence(MimeType(g), mime, MimeType(h));
      }
      match h
      case Png =>
      case Bmp => assert !EqualsIgnoreCase(mime, MimeType(Png));
      case Jpeg => assert !EqualsIgnoreCase(mime, MimeType(Png)) && !EqualsIgnoreCase(mime, MimeType(Bmp));
      case Gif =>
        assert !EqualsIgnoreCase(mime, MimeType(Png)) && !EqualsIgnoreCase(mime, MimeType(Bmp));
        assert !EqualsIgnoreCase(mime, MimeType(Jpeg));
      case Targa =>
        assert !EqualsIgnoreCase(mime, MimeType(Png)) && !EqualsIgnoreCase(mime, MimeType(Bmp));
        assert !EqualsIgnoreCase(mime, MimeType(Jpeg)) && !EqualsIgnoreCase(mime, MimeType(Gif));
      case PortablePixmap =>
        assert !EqualsIgnoreCase(mime, MimeType(Png)) && !EqualsIgnoreCase(mime, MimeType(Bmp));
        assert !EqualsIgnoreCase(mime, MimeType(Jpeg)) && !EqualsIgnoreCase(mime, MimeType(Gif));
        assert !EqualsIgnoreCase(mime, MimeType(Targa));
      case PortableGraymap =>
        assert !EqualsIgnoreCase(mime, MimeType(Png)) && !EqualsIgnoreCase(mime, MimeType(Bmp));
        assert !EqualsIgnoreCase(mime, MimeType(Jpeg)) && !EqualsIgnoreCase(mime, MimeType(Gif));
        assert !EqualsIgnoreCase(mime, MimeType(Targa)) && !EqualsIgnoreCase(mime, MimeType(PortablePixmap));
      case Tiff =>
        assert !EqualsIgnoreCase(mime, MimeType(Png)) && !EqualsIgnoreCase(mime, MimeType(Bmp));
        assert !EqualsIgnoreCase(mime, MimeType(Jpeg)) && !EqualsIgnoreCase(mime, MimeType(Gif));
        assert !EqualsIgnoreCase(mime, MimeType(Targa)) && !EqualsIgnoreCase(mime, MimeType(PortablePixmap));
        assert !EqualsIgnoreCase(mime, MimeType(PortableGraymap));
    }
  }

  /** Every handler is created for its own type, spelt in any mix of case, whatever factory follows. */
  lemma HandlerForOwnType(prevFactory: Option<Factory>, mime: string, h: Handler)
    requires ToUpperCase(mime) == ToUpperCase(MimeType(h))
    ensures CreateContentHandler(ImageFactory(prevFactory), mime) == Some(ImageHandler(h))
  {
    IgnoreCaseIsUpperEquality(mime, MimeType(h));
    LocalHandlerIff(mime, h);
  }

  /** A type that is none of the handlers' goes to the previous factory, or gets null when there is none. */
  lemma UnknownDelegated(f: Factory, mime: string)
    requires forall h: Handler :: !EqualsIgnoreCase(mime, MimeType(h))
    ensures CreateContentHandler(ImageFactory(Some(f)), mime) == CreateContentHandler(f, mime)
    ensures CreateContentHandler(ImageFactory(None), mime) == None
  {
    assert !EqualsIgnoreCase(mime, MimeType(Png)) && !EqualsIgnoreCase(mime, MimeType(Bmp));
    assert !EqualsIgnoreCase(mime, MimeType(Jpeg)) && !EqualsIgnoreCase(mime, MimeType(Gif));
    assert !EqualsIgnoreCase(mime, MimeType(Targa)) && !EqualsIgnoreCase(mime, MimeType(PortablePixmap));
    assert !EqualsIgnoreCase(mime, MimeType(PortableGraymap)) && !EqualsIgnoreCase(mime, MimeType(Tiff));
  }

  /** A factory's answer never reaches the previous factory for a type it knows itself. */
  lemma KnownNotDelegated(f: Factory, mime: string, h: Handler)
    requires EqualsIgnoreCase(mime, MimeType(h))
    ensures CreateContentHandler(ImageFactory(Some(f)), mime) == CreateContentHandler(ImageFactory(None), mime)
    ensures CreateContentHandler(ImageFactory(None), mime) == Some(ImageHandler(h))
  {
    LocalHandlerIff(mime, h);
  }

  /** A chain made of image factories only. */
  predicate ImageChain(f: Factory)
  {
    f.ImageFactory? && (f.prevFactory.Some? ==> ImageChain(f.prevFactory.value))
  }

  /** The local tests give types equal ignoring case the same handler. */
  lemma LocalCaseBlind(a: string, b: string)
    requires EqualsIgnoreCase(a, b)
    ensures LocalHandler(a) == LocalHandler(b)
  {
    forall h: Handler
      ensures EqualsIgnoreCase(a, MimeType(h)) <==> EqualsIgnoreCase(b, MimeType(h))
    {
      IgnoreCaseEquivalence(a, b, MimeType(h));
      IgnoreCaseEquivalence(b, a, MimeType(h));
    }
    match LocalHandler(a)
    case Some(h) =>
      LocalHandlerIff(a, h);
      LocalHandlerIff(b, h);
    case None =>
      if LocalHandler(b).Some? {
        LocalHandlerIff(b, LocalHandler(b).value);
        LocalHandlerIff(a, LocalHandler(b).value);
      }
  }

  /** Along a chain of image factories, types equal ignoring case get the same answer. */
  lemma {:induction false} CaseBlind(f: Factory, a: string, b: string)
    requires EqualsIgnoreCase(a, b) && ImageChain(f)
    ensures CreateContentHandler(f, a) == CreateContentHandler(f, b)
  {
    LocalCaseBlind(a, b);
    if f.prevFactory.Some? {
      CaseBlind(f.prevFactory.value, a, b);
    }
  }
}
