/**
 * ImageFileNameMap: the MIME type of an image file, told by the file
 * name's extension, compared without regard to case; names it does not
 * know go to the map it was chained to, if any.
 */
module ImageFileNameMap {
  import opened DecodeImage
  import opened JavaLang

  /**
   * A FileNameMap: an ImageFileNameMap with the map it was chained to
   * (None for the no-argument constructor), or some other map, seen as
   * the table of names it knows.
   */
  datatype FileNameMap =
    | ImageMap(prevMap: Option<FileNameMap>)
    | OtherMap(types: map<string, string>)

  /**
   * The tests of getContentTypeFor, in order, on the upper-cased name (the
   * source upper-cases the name afresh for each test, to the same string).
   */
  function LocalTypeFor(fileName: string): Option<string>
  {
    UpperTypeFor(ToUpperCase(fileName))
  }

  /** The extension tests on an upper-cased name `u`. */
  function UpperTypeFor(u: string): Option<string>
  {
    if EndsWith(u, ".PNG") then Some("image/png")
    else if EndsWith(u, ".TIF") then Some("image/tiff")
    else if EndsWith(u, ".TIFF") then Some("image/tiff")
    else if EndsWith(u, ".TGA") then Some("image/targa")
    else if EndsWith(u, ".BMP") then Some("image/bmp")
    else None
  }

  /** getContentTypeFor: the local answer, else the previous map's, else null (None). */
  function ContentTypeFor(m: FileNameMap, fileName: string): Option<string>
  {
    match m
    case OtherMap(types) => if fileName in types then Some(types[fileName]) else None
    case ImageMap(prevMap) =>
      if LocalTypeFor(fileName).Some? then LocalTypeFor(fileName)
      else if prevMap.Some? then ContentTypeFor(prevMap.value, fileName)
      else None
  }

  /** The extensions the class knows, upper-cased, with their types, in the order they are tested. */
  const Extensions: seq<(string, string)> :=
    [(".PNG", "image/png"), (".TIF", "image/tiff"), (".TIFF", "image/tiff"), (".TGA", "image/targa"), (".BMP", "image/bmp")]

  /** The type of the first entry of `table` whose extension `u` ends with. */
  function FirstMatch(table: seq<(string, string)>, u: string): Option<string>
  {
    if table == [] then None
    else if EndsWith(u, table[0].0) then Some(table[0].1)
    else FirstMatch(table[1..], u)
  }

  /** The local answer is the first extension, in table order, the upper-cased name ends with. */
  lemma LocalIsFirstMatch(fileName: string)
    ensures LocalTypeFor(fileName) == FirstMatch(Extensions, ToUpperCase(fileName))
  {
    var u := ToUpperCase(fileName);
    assert LocalTypeFor(fileName) == UpperTypeFor(u);
    var t := Extensions;
    assert t[1..][1..][1..][1..][1..] == [];
    assert FirstMatch(t[1..][1..][1..][1..], u) == if EndsWith(u, ".BMP") then Some("image/bmp") else None;
    assert FirstMatch(t[1..][1..][1..], u) == if EndsWith(u, ".TGA") then Some("image/targa") else FirstMatch(t[1..][1..][1..][1..], u);
    assert FirstMatch(t[1..][1..], u) == if EndsWith(u, ".TIFF") then Some("image/tiff") else FirstMatch(t[1..][1..][1..], u);
    assert FirstMatch(t[1..], u) == if EndsWith(u, ".TIF") then Some("image/tiff") else FirstMatch(t[1..][1..], u);
  }

  /**
   * Whether a string ends with `s` is settled by any longer ending `e` it
   * is known to have; a shorter known ending `e` must itself end `s`.
   */
  lemma EndingDecides(u: string, e: string, s: string)
    requires EndsWith(u, e)
    ensures |s| <= |e| ==> (EndsWith(u, s) <==> EndsWith(e, s))
    ensures |s| > |e| && EndsWith(u, s) ==> EndsWith(s, e)
  {
    if |s| <= |e| {
      assert u[|u| - |s|..] == e[|e| - |s|..];
    } else if EndsWith(u, s) {
      assert s[|s| - |e|..] == u[|u| - |e|..];
    }
  }

  /** Which of the known extensions end which. */
  lemma ExtensionEndings()
    ensures !EndsWith(".TIF", ".PNG") && !EndsWith(".TGA", ".PNG") && !EndsWith(".BMP", ".PNG")
    ensures !EndsWith(".TIFF", ".PNG") && !EndsWith(".TIFF", ".TIF")
    ensures !EndsWith(".TGA", ".TIF") && !EndsWith(".BMP", ".TIF") && !EndsWith(".TIFF", ".TGA") && !EndsWith(".TIFF", ".BMP")
    ensures !EndsWith(".BMP", ".TGA") && !EndsWith(".TIFF", ".TGA") && !EndsWith(".TIFF", ".BMP")
  {
    assert ".TIF"[3] != ".PNG"[3] && ".TGA"[3] != ".PNG"[3] && ".BMP"[3] != ".PNG"[3];
    assert ".TIFF"[1..][3] != ".PNG"[3] && ".TIFF"[1..][0] != ".TIF"[0];
    assert ".TGA"[3] != ".TIF"[3] && ".BMP"[3] != ".TIF"[3] && ".TIFF"[1..][0] != ".TGA"[0] && ".TIFF"[1..][0] != ".BMP"[0];
    assert ".BMP"[3] != ".TGA"[3];
  }

  /** An upper-cased name ending in a known extension has that extension's type. */
  lemma UpperEnding(u: string, k: nat)
    requires k < |Extensions| && EndsWith(u, Extensions[k].0)
    ensures UpperTypeFor(u) == Some(Extensions[k].1)
  {
    ExtensionEndings();
    if k == 1 {
      EndingDecides(u, ".TIF", ".PNG");
    } else if k == 2 {
      EndingDecides(u, ".TIFF", ".PNG");
      EndingDecides(u, ".TIFF", ".TIF");
    } else if k == 3 {
      EndingDecides(u, ".TGA", ".PNG");
      EndingDecides(u, ".TGA", ".TIF");
      EndingDecides(u, ".TGA", ".TIFF");
      assert !EndsWith(u, ".TIFF");
    } else if k == 4 {
      EndingDecides(u, ".BMP", ".PNG");
      EndingDecides(u, ".BMP", ".TIF");
      EndingDecides(u, ".BMP", ".TIFF");
      EndingDecides(u, ".BMP", ".TGA");
      assert !EndsWith(u, ".TIFF");
    }
  }

  /**
   * Any name ending in a known extension, in any mix of case, has that
   * extension's type, whatever comes before it and whatever map follows.
   */
  lemma KnownExtension(prevMap: Option<FileNameMap>, stem: string, ext: string, k: nat)
    requires k < |Extensions| && ToUpperCase(ext) == Extensions[k].0
    ensures ContentTypeFor(ImageMap(prevMap), stem + ext) == Some(Extensions[k].1)
  {
    UpperConcat(stem, ext);
    EndsWithAppended(ToUpperCase(stem), ToUpperCase(ext));
    UpperEnding(ToUpperCase(stem + ext), k);
  }

  /** A name ending in none of the extensions goes to the previous map, or gets null when there is none. */
  lemma UnknownDelegated(m: FileNameMap, fileName: string)
    requires forall k :: 0 <= k < |Extensions| ==> !EndsWith(ToUpperCase(fileName), Extensions[k].0)
    ensures ContentTypeFor(ImageMap(Some(m)), fileName) == ContentTypeFor(m, fileName)
    ensures ContentTypeFor(ImageMap(None), fileName) == None
  {
    assert !EndsWith(ToUpperCase(fileName), Extensions[0].0);
    assert !EndsWith(ToUpperCase(fileName), Extensions[1].0);
    assert !EndsWith(ToUpperCase(fileName), Extensions[2].0);
    assert !EndsWith(ToUpperCase(fileName), Extensions[3].0);
    assert !EndsWith(ToUpperCase(fileName), Extensions[4].0);
  }

  /** A chain made of image maps only. */
  predicate ImageChain(m: FileNameMap)
  {
    m.ImageMap? && (m.prevMap.Some? ==> ImageChain(m.prevMap.value))
  }

  /** Along a chain of image maps, the answer depends on the name only through its upper-cased form. */
  lemma {:induction false} CaseBlind(m: FileNameMap, a: string, b: string)
    requires ToUpperCase(a) == ToUpperCase(b) && ImageChain(m)
    ensures ContentTypeFor(m, a) == ContentTypeFor(m, b)
  {
    assert LocalTypeFor(a) == LocalTypeFor(b);
    if m.prevMap.Some? {
      CaseBlind(m.prevMap.value, a, b);
    }
  }

  /** A name the local tests do not know gets what the previous map answers; one they know never reaches it. */
  lemma LocalFirst(m: FileNameMap, fileName: string)
    ensures LocalTypeFor(fileName).Some? ==> ContentTypeFor(ImageMap(Some(m)), fileName) == LocalTypeFor(fileName)
    ensures LocalTypeFor(fileName).None? ==> ContentTypeFor(ImageMap(Some(m)), fileName) == ContentTypeFor(m, fileName)
  {
  }
}
