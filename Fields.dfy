/** `Base64ImageField.to_internal_value` (api/fields.py): an image sent
    inline as a data URL (section 3 of RFC 2397),
    `data:image/<subtype>;base64,<payload>`, becomes a file named
    `temp.<subtype>` whose content is the base 64 decoding of the payload.
    Anything else is handed on untouched to the image field's own
    validation, which is not part of this model. */
module Fields {
  import opened Text
  import Base64

  const DataImage: string := "data:image"
  const Marker: string := ";base64,"

  /** The value the field receives from the request: a string, or some other JSON value. */
  datatype Value = Str(s: string) | NonString

  datatype ContentFile = ContentFile(name: string, content: seq<Base64.byte>)

  /** `UnpackError`: the ValueError of `format, imgstr = data.split(';base64,')`
      when the marker does not occur exactly once; `DecodeError`: the
      `binascii.Error` of `base64.b64decode`. */
  datatype Failure = UnpackError | DecodeError

  datatype Outcome = Unchanged(value: Value) | Decoded(file: ContentFile) | Failed(failure: Failure)

  predicate IsDataImage(v: Value)
  {
    v.Str? && DataImage <= v.s
  }

  /** The extension: what follows the last `/` of the part before the marker. */
  function Extension(format: string): (ext: string)
    ensures !Contains(ext, "/")
  {
    var pieces := Split(format, "/");
    assert pieces[|pieces| - 1] in pieces;
    Last(pieces)
  }

  function ToInternalValue(data: Value): (r: Outcome)
    ensures !IsDataImage(data) <==> r == Unchanged(data)
    ensures r == Failed(UnpackError) <==> IsDataImage(data) && |Split(data.s, Marker)| != 2
    ensures r.Decoded? ==> exists ext :: r.file.name == "temp." + ext && !Contains(ext, "/")
    ensures IsDataImage(data) && |Split(data.s, Marker)| == 2 ==>
      var p := Split(data.s, Marker);
      (r == Failed(DecodeError) <==> Base64.Decode(p[1]).None?) &&
      (r.Decoded? ==> r.file == ContentFile("temp." + Extension(p[0]), Base64.Decode(p[1]).value))
  {
    if !IsDataImage(data) then Unchanged(data)
    else
      var parts := Split(data.s, Marker);
      if |parts| != 2 then Failed(UnpackError)
      else
        var ext := Extension(parts[0]);
        match Base64.Decode(parts[1])
        case None => Failed(DecodeError)
        case Some(bytes) => Decoded(ContentFile("temp." + ext, bytes))
  }

  /** `format.split('/')[-1]`: the whole format when it holds no `/`, and
      otherwise exactly what follows its last `/`. */
  lemma ExtensionAfterLastSlash(format: string)
    ensures '/' !in format ==> Extension(format) == format
    ensures forall k :: 0 <= k < |format| && format[k] == '/' && '/' !in format[k + 1..] ==>
      Extension(format) == format[k + 1..]
  {
    if '/' !in format {
      SplitWithout(format, '/');
    } else {
      var last := LastIndex(format, '/');
      assert format == format[..last] + ['/'] + format[last + 1..];
      LastPieceAfterLastSeparator(format[..last], '/', format[last + 1..]);
    }
  }

  // ---------------------------------------------------------------------
  // The marker must occur exactly once
  // ---------------------------------------------------------------------

  /** When the two-way unpacking succeeds, the string is the part before,
      the marker, and the part after, and neither part holds the marker. */
  lemma UnpackedParts(s: string)
    requires |Split(s, Marker)| == 2
    ensures var p := Split(s, Marker);
      s == p[0] + Marker + p[1] && !Contains(p[0], Marker) && !Contains(p[1], Marker)
  {
    var p := Split(s, Marker);
    assert p[1..] == [p[1]];
  }

  /** Conversely, a string made of a part without the marker, the marker, and
      a part without the marker unpacks into exactly those two parts. */
  lemma {:induction false} ExactlyOnce(a: string, b: string)
    requires !Contains(a, Marker) && !Contains(b, Marker)
    ensures Split(a + Marker + b, Marker) == [a, b]
  {
    var s := a + Marker + b;
    assert OccursAt(s, Marker, |a|) by { assert s[|a|..|a| + |Marker|] == Marker; }
    forall j | 0 <= j < |a| ensures !OccursAt(s, Marker, j) {
      if j + |Marker| <= |a| {
        assert s[j..j + |Marker|] == a[j..j + |Marker|];
        assert !OccursAt(a, Marker, j);
      } else if j + |Marker| <= |s| {
        var k := |a| - j;
        assert s[j..j + |Marker|][k] == s[|a|] == ';';
        assert Marker[k] != ';';
      }
    }
    assert Find(s, Marker) == Some(|a|);
    assert s[..|a|] == a && s[|a| + |Marker|..] == b;
    assert Find(b, Marker).None?;
  }

  // ---------------------------------------------------------------------
  // Round trip through the field
  // ---------------------------------------------------------------------

  /** The data URL of an image of the given subtype and content. */
  function DataUrl(ext: string, content: seq<Base64.byte>): string
  {
    DataImage + "/" + ext + Marker + Base64.Encode(content)
  }

  /** The part before the marker of a data URL, and its payload. */
  lemma UnpackDataUrl(ext: string, content: seq<Base64.byte>)
    requires ';' !in ext
    ensures Split(DataUrl(ext, content), Marker) == [DataImage + "/" + ext, Base64.Encode(content)]
  {
    var format := DataImage + "/" + ext;
    var payload := Base64.Encode(content);
    assert DataUrl(ext, content) == format + Marker + payload;
    assert ';' !in format by {
      forall i | 0 <= i < |format| ensures format[i] != ';' {
        if i >= |DataImage| + 1 { assert format[i] == ext[i - |DataImage| - 1]; }
      }
    }
    NotContainsByFirstChar(format, Marker);
    Base64.EncodeHasNoSemicolon(content);
    NotContainsByFirstChar(payload, Marker);
    ExactlyOnce(format, payload);
  }

  lemma ExtensionOfDataImage(ext: string)
    requires '/' !in ext
    ensures Extension(DataImage + "/" + ext) == ext
  {
    assert DataImage + "/" + ext == DataImage + ['/'] + ext;
    LastPieceAfterLastSeparator(DataImage, '/', ext);
  }

  /** A data URL built from any content and a subtype holding neither `/`
      nor `;` is turned back into a file `temp.<subtype>` with that content. */
  lemma DataUrlRoundTrip(ext: string, content: seq<Base64.byte>)
    requires '/' !in ext && ';' !in ext
    ensures ToInternalValue(Str(DataUrl(ext, content))) == Decoded(ContentFile("temp." + ext, content))
  {
    UnpackDataUrl(ext, content);
    ExtensionOfDataImage(ext);
    Base64.DecodeEncode(content);
    assert DataImage <= DataUrl(ext, content);
  }
}
