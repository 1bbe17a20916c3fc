/** The server's copy of `CommentDataUtil` (packages/danmakucraft2-server/scripts/
    CommentDataUtil.ts), which reads the comments of a bilibili XML document. Its metadata
    suffix and char-code decoding are those of the client's codec, but it checks no tag:
    what follows the delimiter is the position and optionally a buff type and parameter. */
module ServerComment {
  import opened Wrappers
  import opened Geometry
  import opened CommentCodec

  /** A `BuffData(buffType, buffParameter)`. */
  datatype BuffData = BuffData(buffType: int, buffParameter: int)

  /** The server's `CommentData`. Size and colour are `Number` of the third and fourth
      attribute fields, which are kept here as text; `None` is a missing field. */
  datatype ServerCommentData = ServerCommentData(
    size: Option<Text>,
    color: Option<Text>,
    text: Text,
    position: Point,
    buffData: Option<BuffData>)

  /** One `<d p="...">text</d>` element of the document. */
  datatype XmlComment = XmlComment(attributes: Text, text: Text)

  /** The field at an index of a destructured split, `None` for undefined. */
  function FieldAt(fields: seq<Text>, i: nat): (r: Option<Text>)
    ensures r.Some? <==> i < |fields|
    ensures r.Some? ==> r.value == fields[i]
  {
    if i < |fields| then Some(fields[i]) else None
  }

  /** The comment built from the decoded metadata; `buffTypes` are the numbers for which
      `BuffType[buffType]` is defined. A comment is made exactly when there are two or four
      properties; the position is the first two, size and colour are the third and fourth
      attribute fields, and there is buff data exactly when there are four properties and
      the third is a buff type. */
  function ReadServerProperties(attributes: Text, commentText: Text, properties: seq<int>, buffTypes: set<int>)
    : (r: Option<ServerCommentData>)
    ensures r.Some? <==> |properties| == 2 || |properties| == 4
    ensures r.Some? ==>
              var c := r.value;
              var fields := Split(attributes);
              && c.text == commentText
              && c.position == Point(properties[0], properties[1])
              && (c.size.Some? <==> |fields| > 2) && (c.size.Some? ==> c.size.value == fields[2])
              && (c.color.Some? <==> |fields| > 3) && (c.color.Some? ==> c.color.value == fields[3])
              && (c.buffData.Some? <==> |properties| == 4 && properties[2] in buffTypes)
              && (c.buffData.Some? ==> c.buffData.value == BuffData(properties[2], properties[3]))
  {
    var fields := Split(attributes);
    if |properties| == 2 then
      Some(ServerCommentData(FieldAt(fields, 2), FieldAt(fields, 3), commentText,
                             Point(properties[0], properties[1]), None))
    else if |properties| == 4 then
      var buffData := if properties[2] in buffTypes then Some(BuffData(properties[2], properties[3])) else None;
      Some(ServerCommentData(FieldAt(fields, 2), FieldAt(fields, 3), commentText,
                             Point(properties[0], properties[1]), buffData))
    else None
  }

  /** What `parseFromXmlLine(attributes, text)` returns, `None` for null: a comment only for
      a text with a delimiter, whose text is what comes before the last one. */
  function ParseLineOf(attributes: Text, text: Text, buffTypes: set<int>): (r: Option<ServerCommentData>)
    ensures r.Some? ==> LastIndexOfDelimiter(text).Some?
    ensures r.Some? ==> r.value.text == text[..LastIndexOfDelimiter(text).value]
  {
    match LastIndexOfDelimiter(text)
    case None => None
    case Some(indexMetadata) =>
      match ToActualCharCodes(text[indexMetadata + 2..])
      case None => None
      case Some(properties) => ReadServerProperties(attributes, text[..indexMetadata], properties, buffTypes)
  }

  /** `parseFromXmlLine`: finds the last delimiter, copies the metadata's char codes,
      decodes them and reads two or four properties. */
  method ParseFromXmlLine(attributes: Text, text: Text, buffTypes: set<int>) returns (r: Option<ServerCommentData>)
    ensures r == ParseLineOf(attributes, text, buffTypes)
  {
    var indexMetadata := LastIndexOfDelimiter(text);
    if indexMetadata.None? {
      return None;
    }
    var metadataText := text[indexMetadata.value + |METADATA_DELIMITER|..];
    var properties: seq<int> := [];
    for i := 0 to |metadataText|
      invariant properties == metadataText[..i]
    {
      properties := properties + [metadataText[i]];
    }
    assert properties == metadataText;
    var actual := ToActualCharCodes(properties);
    if actual.None? {
      return None;
    }
    properties := actual.value;
    var commentText := text[..indexMetadata.value];
    var buffData: Option<BuffData> := None;
    if |properties| == 2 {
    } else if |properties| == 4 {
      if properties[2] in buffTypes {
        buffData := Some(BuffData(properties[2], properties[3]));
      }
    } else {
      return None;
    }
    var fields := Split(attributes);
    r := Some(ServerCommentData(FieldAt(fields, 2), FieldAt(fields, 3), commentText,
                                Point(properties[0], properties[1]), buffData));
  }

  /** Without a delimiter in the text there is no comment. */
  lemma ParseLineNeedsDelimiter(attributes: Text, text: Text, buffTypes: set<int>)
    requires forall j :: !DelimiterAt(text, j)
    ensures ParseLineOf(attributes, text, buffTypes) == None
  {
  }

  /** A metadata char code outside the accepted ranges means no comment. */
  lemma ParseLineRejectsUnsafeCodes(attributes: Text, text: Text, buffTypes: set<int>, k: int)
    requires LastIndexOfDelimiter(text).Some?
    requires LastIndexOfDelimiter(text).value + 2 <= k < |text| && !Encoded(text[k])
    ensures ParseLineOf(attributes, text, buffTypes) == None
  {
    var i := LastIndexOfDelimiter(text).value;
    assert text[i + 2..][k - (i + 2)] == text[k];
  }

  /** A parsed comment's text is what comes before the last delimiter; what follows the
      delimiter is two or four accepted char codes, and the position is the first two
      decoded. */
  lemma ParsedLine(attributes: Text, text: Text, buffTypes: set<int>)
    requires ParseLineOf(attributes, text, buffTypes).Some?
    ensures LastIndexOfDelimiter(text).Some?
    ensures var i := LastIndexOfDelimiter(text).value;
            var c := ParseLineOf(attributes, text, buffTypes).value;
            && c.text == text[..i]
            && (|text| == i + 4 || |text| == i + 6)
            && (forall k :: i + 2 <= k < |text| ==> Encoded(text[k]))
            && c.position == Point(DecodeCode(text[i + 2]), DecodeCode(text[i + 3]))
  {
    var i := LastIndexOfDelimiter(text).value;
    var meta := text[i + 2..];
    var properties := ToActualCharCodes(meta).value;
    assert forall k :: i + 2 <= k < |text| ==> text[k] == meta[k - (i + 2)];
  }

  /** The metadata the client's codec writes carries a tag after the position, three
      properties in all, which the server's parser does not accept. */
  lemma ClientMetadataRejected(attributes: Text, text: Text, commentX: int, commentY: int, buffTypes: set<int>)
    requires MetadataOf(text, commentX, commentY).Some?
    ensures ParseLineOf(attributes, text + MetadataOf(text, commentX, commentY).value, buffTypes) == None
  {
    var properties := [commentX, commentY, MacOf(text, [commentX, commentY])];
    var encoded := ToSafeCharCodes(properties).value;
    FromCharCodesKeepsText(encoded);
    var whole := text + METADATA_DELIMITER + encoded;
    assert text + MetadataOf(text, commentX, commentY).value == whole;
    DelimiterBeforeMetadata(text, encoded);
    assert whole[|text| + 2..] == encoded;
    SafeCharCodesRoundTrip(properties);
  }

  /** A position written with the client's char-code encoding after any text is read back
      by the server's parser, without buff data. */
  lemma PositionRoundTrip(attributes: Text, text: Text, x: int, y: int, buffTypes: set<int>)
    requires Safe(x) && Safe(y)
    ensures ToSafeCharCodes([x, y]).Some?
    ensures var fields := Split(attributes);
            ParseLineOf(attributes, text + METADATA_DELIMITER + ToSafeCharCodes([x, y]).value, buffTypes)
            == Some(ServerCommentData(FieldAt(fields, 2), FieldAt(fields, 3), text, Point(x, y), None))
  {
    var encoded := ToSafeCharCodes([x, y]).value;
    var whole := text + METADATA_DELIMITER + encoded;
    DelimiterBeforeMetadata(text, encoded);
    assert whole[|text| + 2..] == encoded;
    assert whole[..|text|] == text;
    SafeCharCodesRoundTrip([x, y]);
  }

  /** The comment an element yields, `None` for null. */
  function Parsed(element: XmlComment, buffTypes: set<int>): Option<ServerCommentData>
  {
    ParseLineOf(element.attributes, element.text, buffTypes)
  }

  /** `parseFromDocument`: the comments of the elements that parse, in document order. */
  function ParseDocument(elements: seq<XmlComment>, buffTypes: set<int>): (r: seq<ServerCommentData>)
    ensures |r| <= |elements|
  {
    if |elements| == 0 then []
    else
      var rest := ParseDocument(elements[1..], buffTypes);
      match Parsed(elements[0], buffTypes)
      case None => rest
      case Some(c) => [c] + rest
  }

  /** The comments of two runs of elements are those of the first run, then those of the
      second: the filter keeps document order. */
  lemma {:induction false} ParseDocumentAppend(first: seq<XmlComment>, second: seq<XmlComment>, buffTypes: set<int>)
    ensures ParseDocument(first + second, buffTypes)
            == ParseDocument(first, buffTypes) + ParseDocument(second, buffTypes)
    decreases |first|
  {
    if |first| == 0 {
      assert first + second == second;
    } else {
      assert (first + second)[0] == first[0];
      assert (first + second)[1..] == first[1..] + second;
      ParseDocumentAppend(first[1..], second, buffTypes);
    }
  }

  /** One element gives its comment when it parses and nothing otherwise. */
  lemma ParseDocumentSingle(element: XmlComment, buffTypes: set<int>)
    ensures ParseDocument([element], buffTypes)
            == if Parsed(element, buffTypes).Some? then [Parsed(element, buffTypes).value] else []
  {
    assert [element][1..] == [];
  }

  /** Every comment of the document comes from an element that parses to it. */
  lemma {:induction false} ParseDocumentOnlyParsed(elements: seq<XmlComment>, buffTypes: set<int>, k: nat)
    requires k < |ParseDocument(elements, buffTypes)|
    ensures exists i :: 0 <= i < |elements| && Parsed(elements[i], buffTypes) == Some(ParseDocument(elements, buffTypes)[k])
  {
    var r := ParseDocument(elements, buffTypes);
    var rest := ParseDocument(elements[1..], buffTypes);
    var head := Parsed(elements[0], buffTypes);
    if head.Some? && k == 0 {
      assert Parsed(elements[0], buffTypes) == Some(r[k]);
    } else {
      var k' := if head.Some? then k - 1 else k;
      assert r[k] == rest[k'];
      ParseDocumentOnlyParsed(elements[1..], buffTypes, k');
      var i :| 0 <= i < |elements[1..]| && Parsed(elements[1..][i], buffTypes) == Some(rest[k']);
      assert elements[1..][i] == elements[i + 1];
    }
  }

  /** Every element that parses contributes its comment. */
  lemma {:induction false} ParseDocumentKeepsParsed(elements: seq<XmlComment>, buffTypes: set<int>, i: nat)
    requires i < |elements| && Parsed(elements[i], buffTypes).Some?
    ensures Parsed(elements[i], buffTypes).value in ParseDocument(elements, buffTypes)
  {
    var rest := ParseDocument(elements[1..], buffTypes);
    if i > 0 {
      assert elements[1..][i - 1] == elements[i];
      ParseDocumentKeepsParsed(elements[1..], buffTypes, i - 1);
    }
  }
}
