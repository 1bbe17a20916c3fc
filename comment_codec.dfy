/** `CommentDataUtil` of src/environment/bilibili.ts: the metadata a comment carries after
    its text. The metadata is the delimiter `/[` followed by the comment's position (and
    optionally an advanced type and parameter) and a hash tag, each number written as one
    character chosen to be safe in a bilibili comment. Strings are sequences of UTF-16 code
    units, as `charCodeAt` sees them. */
module CommentCodec {
  import opened Wrappers
  import opened JsNumbers

  type CodeUnit = c: int | 0 <= c < 0x1_0000

  type Text = seq<CodeUnit>

  const SLASH: CodeUnit := 0x2F
  const LEFT_BRACKET: CodeUnit := 0x5B
  const COMMA: CodeUnit := 0x2C

  /** `METADATA_DELIMITER`, `/[`. */
  const METADATA_DELIMITER: Text := [SLASH, LEFT_BRACKET]

  predicate DelimiterAt(text: Text, i: int)
  {
    0 <= i && i + 1 < |text| && text[i] == SLASH && text[i + 1] == LEFT_BRACKET
  }

  /** `text.lastIndexOf('/[')`, `None` for -1. */
  function LastIndexOfDelimiter(text: Text): (r: Option<nat>)
    ensures r.Some? ==> DelimiterAt(text, r.value)
    ensures r.Some? ==> forall j :: r.value < j ==> !DelimiterAt(text, j)
    ensures r.None? <==> forall j :: !DelimiterAt(text, j)
    decreases |text|
  {
    if |text| < 2 then None
    else if DelimiterAt(text, |text| - 2) then Some(|text| - 2)
    else
      var r := LastIndexOfDelimiter(text[..|text| - 1]);
      assert forall j :: DelimiterAt(text, j) ==> j < |text| - 2 && DelimiterAt(text[..|text| - 1], j);
      r
  }

  /** A number `toSafeCharCodes` is meant to accept. */
  predicate Safe(code: int)
  {
    0 <= code < 0x8000
  }

  /** A char code `toActualCharCodes` accepts. */
  predicate Encoded(code: int)
  {
    (0x4000 <= code <= 0x9fff) || (0xb000 <= code <= 0xcfff)
  }

  /** The char code a number is written as: offset 0x4000 below 0x6000, else 0x5000. */
  function EncodeCode(code: int): int
  {
    (if code < 0x6000 then 0x4000 else 0x5000) + code
  }

  /** The number a char code stands for. */
  function DecodeCode(code: int): int
  {
    code - (if code < 0xb000 then 0x4000 else 0x5000)
  }

  /** Writing a safe number and reading it back gives the number. */
  lemma CodeRoundTrip(code: int)
    requires Safe(code)
    ensures Encoded(EncodeCode(code)) && DecodeCode(EncodeCode(code)) == code
  {
  }

  /** Every accepted char code stands for a safe number. */
  lemma DecodedIsSafe(code: int)
    requires Encoded(code)
    ensures Safe(DecodeCode(code)) && EncodeCode(DecodeCode(code)) == code
  {
  }

  /** `toActualCharCodes`: `None` (the thrown error) unless every code is accepted. */
  function ToActualCharCodes(codes: seq<int>): (r: Option<seq<int>>)
    ensures r.Some? <==> forall k :: 0 <= k < |codes| ==> Encoded(codes[k])
    ensures r.Some? ==> |r.value| == |codes|
    ensures r.Some? ==> forall k :: 0 <= k < |codes| ==> r.value[k] == DecodeCode(codes[k]) && Safe(r.value[k])
  {
    if forall k :: 0 <= k < |codes| ==> Encoded(codes[k]) then
      Some(seq(|codes|, k requires 0 <= k < |codes| => DecodeCode(codes[k])))
    else
      None
  }

  /** `toSafeCharCodes` as written: it throws when some code is below 0x8000, which is
      every number it is meant to accept. */
  function ToSafeCharCodesAsWritten(codes: seq<int>): (r: Option<seq<int>>)
    ensures r.Some? <==> forall k :: 0 <= k < |codes| ==> codes[k] >= 0x8000
  {
    if exists k :: 0 <= k < |codes| && codes[k] < 0x8000 then None
    else Some(seq(|codes|, k requires 0 <= k < |codes| => EncodeCode(codes[k])))
  }

  /** `toSafeCharCodes` with the guard its comment states: every number in [0, 0x8000). */
  function ToSafeCharCodes(codes: seq<int>): (r: Option<Text>)
    ensures r.Some? <==> forall k :: 0 <= k < |codes| ==> Safe(codes[k])
    ensures r.Some? ==> |r.value| == |codes|
    ensures r.Some? ==> forall k :: 0 <= k < |codes| ==> Encoded(r.value[k])
  {
    if exists k :: 0 <= k < |codes| && !Safe(codes[k]) then None
    else Some(seq(|codes|, k requires 0 <= k < |codes| => EncodeCode(codes[k])))
  }

  /** Safe numbers written with `toSafeCharCodes` are read back by `toActualCharCodes`. */
  lemma SafeCharCodesRoundTrip(codes: seq<int>)
    requires forall k :: 0 <= k < |codes| ==> Safe(codes[k])
    ensures ToSafeCharCodes(codes).Some?
    ensures ToActualCharCodes(ToSafeCharCodes(codes).value) == Some(codes)
  {
    var e := ToSafeCharCodes(codes).value;
    var d := ToActualCharCodes(e).value;
    assert forall k :: 0 <= k < |codes| ==> d[k] == DecodeCode(EncodeCode(codes[k])) == codes[k];
    assert |d| == |codes|;
    assert d == codes;
  }

  /** Every number the guard as written lets through is refused by the intended guard,
      so no list the intended guard accepts gets past the written one unless it is empty. */
  lemma SafeCharCodesGuardInverted(codes: seq<int>)
    requires |codes| > 0 && forall k :: 0 <= k < |codes| ==> Safe(codes[k])
    ensures ToSafeCharCodesAsWritten(codes) == None
    ensures ToSafeCharCodes(codes).Some?
  {
    assert codes[0] < 0x8000;
  }

  /** `String.fromCharCode(...codes)`: each code taken modulo 2^16. */
  function FromCharCodes(codes: seq<int>): (r: Text)
    ensures |r| == |codes|
    ensures forall k :: 0 <= k < |codes| ==> r[k] == codes[k] % TWO_16
  {
    seq(|codes|, k requires 0 <= k < |codes| => codes[k] % TWO_16)
  }

  /** The code units `hash` surrounds its arguments with: `,87h` before and `{cIb` after. */
  function Salted(codes: seq<Number>): (r: seq<Number>)
    ensures |r| == |codes| + 8 && r[4..|codes| + 4] == codes
    ensures r[0] == Int(44)
  {
    [Int(44), Int(56), Int(55), Int(104)] + codes + [Int(123), Int(99), Int(73), Int(98)]
  }

  /** One step of `hash`'s loop: `ret <<= 1` (on 32 bits, NaN read as 0), then
      `ret = 31 * ret + code` (NaN when the code is NaN). */
  function HashStep(ret: Number, code: Number): (r: Number)
    ensures r.NaN? <==> code.NaN?
  {
    var shifted := ToInt32(NumberToInt32(ret) * 2);
    match code
    case NaN => NaN
    case Int(c) => Int(31 * shifted + c)
  }

  /** `ret` after the loop has run over `codes`, last code first. A NaN code is forgotten
      by the next shift, so only the code taken last, the first one, can leave NaN. */
  function HashFold(codes: seq<Number>): (r: Number)
    ensures r.NaN? <==> |codes| > 0 && codes[0].NaN?
  {
    if |codes| == 0 then Int(0) else HashStep(HashFold(codes[1..]), codes[0])
  }

  /** The end of `hash`: `ret = (ret >> 15) ^ ret`, then `ret %= 0x8000` with JavaScript's
      remainder, which keeps the sign. The shift keeps the sign of `ret`, so the xor of the
      two clears it, and the tag always lies in [0, 0x8000). */
  function HashFinish(ret: Number): (r: int)
    ensures 0 <= r < TWO_15
  {
    var r32 := NumberToInt32(ret);
    Rem(Xor32(ShiftRight15(r32), r32), TWO_15)
  }

  /** What `hash(...codes)` returns. */
  function HashOf(codes: seq<Number>): (r: int)
    ensures 0 <= r < TWO_15
  {
    HashFinish(HashFold(Salted(codes)))
  }

  /** `hash`: the downward loop over the salted codes. */
  method Hash(codes: seq<Number>) returns (ret: int)
    ensures ret == HashOf(codes)
    ensures 0 <= ret < TWO_15
  {
    var salted := Salted(codes);
    var acc: Number := Int(0);
    var i := |salted| - 1;
    while i >= 0
      invariant -1 <= i < |salted|
      invariant acc == HashFold(salted[i + 1..])
      decreases i
    {
      assert salted[i..][1..] == salted[i + 1..];
      var shifted := ToInt32(NumberToInt32(acc) * 2);
      acc := match salted[i]
        case NaN => NaN
        case Int(c) => Int(31 * shifted + c);
      i := i - 1;
    }
    assert salted[0..] == salted;
    ret := HashFinish(acc);
  }

  /** `message.charCodeAt(0) % 0x8000`: NaN for an empty message. */
  function FirstCharCode(message: Text): (r: Number)
    ensures r.NaN? <==> |message| == 0
    ensures r.Int? ==> r.value == message[0] as int % TWO_15
  {
    if |message| == 0 then NaN else Int(Rem(message[0], TWO_15))
  }

  /** The properties as the numbers `hash` is called with. */
  function Numbers(values: seq<int>): (r: seq<Number>)
    ensures |r| == |values| && forall k :: 0 <= k < |values| ==> r[k] == Int(values[k])
  {
    seq(|values|, k requires 0 <= k < |values| => Int(values[k]))
  }

  /** What `mac(message, properties)` returns. */
  function MacOf(message: Text, properties: seq<int>): (r: int)
    ensures 0 <= r < TWO_15
  {
    HashOf([FirstCharCode(message)] + Numbers(properties))
  }

  /** `mac`: the hash of the message's first char code and the properties. */
  method Mac(message: Text, properties: seq<int>) returns (tag: int)
    ensures tag == MacOf(message, properties)
  {
    tag := Hash([FirstCharCode(message)] + Numbers(properties));
  }

  /** The tag depends on the message only through its first char code. */
  lemma MacReadsFirstCharCode(message: Text, message': Text, properties: seq<int>)
    requires FirstCharCode(message) == FirstCharCode(message')
    ensures MacOf(message, properties) == MacOf(message', properties)
  {
  }

  /** What `generateCommentMetadata` returns with the intended guard: the delimiter and the
      written position and tag, or `None` where it throws. */
  function MetadataOf(text: Text, commentX: int, commentY: int): (r: Option<Text>)
    ensures r.Some? ==> |r.value| == 5 && r.value[..2] == METADATA_DELIMITER
  {
    var properties := [commentX, commentY, MacOf(text, [commentX, commentY])];
    match ToSafeCharCodes(properties)
    case None => None
    case Some(encoded) => Some(METADATA_DELIMITER + FromCharCodes(encoded))
  }

  /** `generateCommentMetadata`, with the intended `toSafeCharCodes`. */
  method GenerateCommentMetadata(text: Text, commentX: int, commentY: int) returns (r: Option<Text>)
    ensures r == MetadataOf(text, commentX, commentY)
  {
    var tag := Mac(text, [commentX, commentY]);
    var properties := [commentX, commentY, tag];
    var encodedProperties := ToSafeCharCodes(properties);
    if encodedProperties.None? {
      return None;
    }
    r := Some(METADATA_DELIMITER + FromCharCodes(encodedProperties.value));
  }

  /** `generateCommentMetadata` as written, with the inverted guard: it always throws. */
  method GenerateCommentMetadataAsWritten(text: Text, commentX: int, commentY: int) returns (r: Option<Text>)
    ensures r == None
  {
    var tag := Mac(text, [commentX, commentY]);
    var properties := [commentX, commentY, tag];
    var encodedProperties := ToSafeCharCodesAsWritten(properties);
    GenerateAsWrittenAlwaysThrows(text, commentX, commentY);
    match encodedProperties
    case None =>
      return None;
    case Some(_) =>
      assert false;
  }

  /** As written, the tag is always below 0x8000, so `generateCommentMetadata` always
      throws. */
  lemma GenerateAsWrittenAlwaysThrows(text: Text, commentX: int, commentY: int)
    ensures ToSafeCharCodesAsWritten([commentX, commentY, MacOf(text, [commentX, commentY])]) == None
  {
    var properties := [commentX, commentY, MacOf(text, [commentX, commentY])];
    assert properties[2] < 0x8000;
  }

  /** With the intended guard, metadata is made exactly when both coordinates are safe:
      the tag always is. */
  lemma MetadataMadeWhen(text: Text, commentX: int, commentY: int)
    ensures MetadataOf(text, commentX, commentY).Some? <==> Safe(commentX) && Safe(commentY)
  {
    var properties := [commentX, commentY, MacOf(text, [commentX, commentY])];
    assert Safe(properties[2]);
    if !(Safe(commentX) && Safe(commentY)) {
      assert !Safe(properties[0]) || !Safe(properties[1]);
    }
  }

  /** The fields of `attributes.split(',')`. */
  function Split(s: Text): (r: seq<Text>)
    ensures |r| > 0
    ensures forall i, k :: 0 <= i < |r| && 0 <= k < |r[i]| ==> r[i][k] != COMMA
  {
    if |s| == 0 then [[]]
    else
      var rest := Split(s[1..]);
      if s[0] == COMMA then [[]] + rest
      else [[s[0]] + rest[0]] + rest[1..]
  }

  predicate NoComma(field: Text)
  {
    forall k :: 0 <= k < |field| ==> field[k] != COMMA
  }

  /** Fields put back together with commas between them. */
  function Join(fields: seq<Text>): Text
    requires |fields| > 0
  {
    if |fields| == 1 then fields[0] else fields[0] + [COMMA] + Join(fields[1..])
  }

  /** Joining after putting text in front of the first field. */
  lemma JoinPrefixFirst(a: Text, b: Text, rest: seq<Text>)
    ensures Join([a + b] + rest) == a + Join([b] + rest)
  {
    var g := [a + b] + rest;
    var h := [b] + rest;
    assert g[1..] == rest && h[1..] == rest;
    if |rest| > 0 {
      var tail := [COMMA] + Join(rest);
      assert Join(g) == (a + b) + tail;
      assert Join(h) == b + tail;
      assert (a + b) + tail == a + (b + tail);
    }
  }

  /** Splitting loses nothing: the fields joined with commas are the string. */
  lemma {:induction false} SplitJoin(s: Text)
    ensures Join(Split(s)) == s
  {
    if |s| > 0 {
      var rest := Split(s[1..]);
      SplitJoin(s[1..]);
      if s[0] == COMMA {
        assert ([[]] + rest)[1..] == rest;
      } else {
        JoinPrefixFirst([s[0]], rest[0], rest[1..]);
        assert [rest[0]] + rest[1..] == rest;
      }
      assert s == [s[0]] + s[1..];
    }
  }

  /** Fields without commas are split back out of their join. */
  lemma {:induction false} JoinSplit(fields: seq<Text>)
    requires |fields| > 0 && forall i :: 0 <= i < |fields| ==> NoComma(fields[i])
    ensures Split(Join(fields)) == fields
    decreases |fields|, |fields[0]|
  {
    var f := fields[0];
    if |f| > 0 {
      var fields' := [f[1..]] + fields[1..];
      assert fields'[1..] == fields[1..];
      JoinSplit(fields');
      assert [f[0]] + f[1..] == f;
      assert [[f[0]] + f[1..]] + fields[1..] == fields;
      JoinPrefixFirst([f[0]], f[1..], fields[1..]);
      assert Join(fields) == [f[0]] + Join(fields');
      assert Join(fields)[1..] == Join(fields');
    } else if |fields| > 1 {
      JoinSplit(fields[1..]);
      assert Join(fields) == [COMMA] + Join(fields[1..]);
      assert Join(fields)[1..] == Join(fields[1..]);
      assert [[]] + fields[1..] == fields;
    }
  }

  /** The `CommentData` that `parseFromXmlStrings` builds. The six attribute numbers
      (show time, mode, size, colour, send time, user id) are `Number` of the attribute
      fields, which are kept here as text. */
  datatype CommentData = CommentData(
    attributeFields: seq<Text>,
    text: Text,
    positionX: int,
    positionY: int,
    advancedCommentType: Option<int>,
    advancedCommentParameter: Option<int>)

  /** What `parseFromXmlStrings(attributes, text)` returns, `None` for null: a comment only
      for a text with a delimiter, whose text is what comes before the last one. */
  function ParseOf(attributes: Text, text: Text): (r: Option<CommentData>)
    ensures r.Some? ==> LastIndexOfDelimiter(text).Some?
    ensures r.Some? ==> r.value.text == text[..LastIndexOfDelimiter(text).value]
    ensures r.Some? ==> r.value.attributeFields == Split(attributes)
  {
    match LastIndexOfDelimiter(text)
    case None => None
    case Some(indexMetadata) =>
      match ToActualCharCodes(text[indexMetadata + 2..])
      case None => None
      case Some(properties) => ReadProperties(attributes, text[..indexMetadata], properties)
  }

  /** The comment built from the decoded metadata: the tag popped off the end must be the
      mac of the text and the rest, which is two or four properties. So a comment is made
      exactly when there are three or five properties and the last is the mac of the text
      and the others; the first two are the position and the others, when present, the
      advanced type and parameter. */
  function ReadProperties(attributes: Text, commentText: Text, properties: seq<int>): (r: Option<CommentData>)
    ensures r.Some? <==>
              && (|properties| == 3 || |properties| == 5)
              && properties[|properties| - 1] == MacOf(commentText, properties[..|properties| - 1])
    ensures r.Some? ==>
              var c := r.value;
              && c.text == commentText && c.attributeFields == Split(attributes)
              && c.positionX == properties[0] && c.positionY == properties[1]
              && (|properties| == 3 <==> c.advancedCommentType.None?)
              && (|properties| == 3 <==> c.advancedCommentParameter.None?)
              && (|properties| == 5 ==> c.advancedCommentType == Some(properties[2]))
              && (|properties| == 5 ==> c.advancedCommentParameter == Some(properties[3]))
  {
    if |properties| == 0 then None
    else
      var tag := properties[|properties| - 1];
      var rest := properties[..|properties| - 1];
      if tag != MacOf(commentText, rest) then None
      else if |rest| == 2 then Some(CommentData(Split(attributes), commentText, rest[0], rest[1], None, None))
      else if |rest| == 4 then
        Some(CommentData(Split(attributes), commentText, rest[0], rest[1], Some(rest[2]), Some(rest[3])))
      else None
  }

  /** `parseFromXmlStrings`: finds the last delimiter, copies the metadata's char codes,
      decodes them, checks the tag popped off the end against the text's mac and reads two
      or four properties. */
  method ParseFromXmlStrings(attributes: Text, text: Text) returns (r: Option<CommentData>)
    ensures r == ParseOf(attributes, text)
  {
    var indexMetadata := LastIndexOfDelimiter(text);
    if indexMetadata.None? {
      return None;
    }
    var metadataText := text[indexMetadata.value + |METADATA_DELIMITER|..];
    var properties: seq<int> := [];
    for i := 0 to |metadataText|
      invariant properties == metadataText[..i]
    {
      properties := properties + [metadataText[i]];
    }
    assert properties == metadataText;
    var actual := ToActualCharCodes(properties);
    if actual.None? {
      return None;
    }
    var commentText := text[..indexMetadata.value];
    if |actual.value| == 0 {
      // `pop()` of an empty list is undefined, which no tag equals.
      return None;
    }
    var tag := actual.value[|actual.value| - 1];
    var rest := actual.value[..|actual.value| - 1];
    var tag2 := Mac(commentText, rest);
    if tag != tag2 {
      return None;
    }
    if |rest| == 2 {
      r := Some(CommentData(Split(attributes), commentText, rest[0], rest[1], None, None));
    } else if |rest| == 4 {
      r := Some(CommentData(Split(attributes), commentText, rest[0], rest[1], Some(rest[2]), Some(rest[3])));
    } else {
      r := None;
    }
  }

  /** Without a delimiter in the text there is no comment. */
  lemma ParseNeedsDelimiter(attributes: Text, text: Text)
    requires forall j :: !DelimiterAt(text, j)
    ensures ParseOf(attributes, text) == None
  {
  }

  /** A parsed comment's text is what comes before the last delimiter; what follows the
      delimiter is three or five accepted char codes. */
  lemma ParsedComment(attributes: Text, text: Text)
    requires ParseOf(attributes, text).Some?
    ensures LastIndexOfDelimiter(text).Some?
    ensures var i := LastIndexOfDelimiter(text).value;
            && ParseOf(attributes, text).value.text == text[..i]
            && (|text| == i + 5 || |text| == i + 7)
            && forall k :: i + 2 <= k < |text| ==> Encoded(text[k])
  {
    var i := LastIndexOfDelimiter(text).value;
    var meta := text[i + 2..];
    var properties := ToActualCharCodes(meta).value;
    assert forall k :: i + 2 <= k < |text| ==> text[k] == meta[k - (i + 2)];
  }

  /** A metadata char code that `toActualCharCodes` refuses means no comment. */
  lemma ParseRejectsUnsafeCodes(attributes: Text, text: Text, k: int)
    requires LastIndexOfDelimiter(text).Some?
    requires LastIndexOfDelimiter(text).value + 2 <= k < |text| && !Encoded(text[k])
    ensures ParseOf(attributes, text) == None
  {
    var i := LastIndexOfDelimiter(text).value;
    assert text[i + 2..][k - (i + 2)] == text[k];
  }

  /** Code units already below 2^16 are kept by `String.fromCharCode`. */
  lemma FromCharCodesKeepsText(codes: Text)
    ensures FromCharCodes(codes) == codes
  {
    forall k | 0 <= k < |codes| ensures FromCharCodes(codes)[k] == codes[k] {
      assert 0 <= codes[k] < TWO_16;
    }
  }

  /** A delimiter with none after it is the one `lastIndexOf` finds. */
  lemma LastDelimiter(text: Text, i: nat)
    requires DelimiterAt(text, i) && forall j :: i < j ==> !DelimiterAt(text, j)
    ensures LastIndexOfDelimiter(text) == Some(i)
  {
  }

  /** The delimiter before written metadata is the last one in the comment. */
  lemma DelimiterBeforeMetadata(text: Text, written: Text)
    requires forall k :: 0 <= k < |written| ==> Encoded(written[k])
    ensures var whole := text + METADATA_DELIMITER + written;
            LastIndexOfDelimiter(whole) == Some(|text|)
  {
    var whole := text + METADATA_DELIMITER + written;
    assert DelimiterAt(whole, |text|);
    forall j | |text| < j ensures !DelimiterAt(whole, j) {
      if j == |text| + 1 {
        assert whole[j] == LEFT_BRACKET;
      } else if |text| + 1 < j < |whole| {
        assert whole[j] == written[j - |text| - 2];
        assert Encoded(written[j - |text| - 2]);
      }
    }
    LastDelimiter(whole, |text|);
  }

  /** Metadata made for a text is parsed back to the text and the position, after any
      text and under any attributes. */
  lemma MetadataRoundTrip(attributes: Text, text: Text, commentX: int, commentY: int)
    requires MetadataOf(text, commentX, commentY).Some?
    ensures ParseOf(attributes, text + MetadataOf(text, commentX, commentY).value)
            == Some(CommentData(Split(attributes), text, commentX, commentY, None, None))
  {
    var properties := [commentX, commentY, MacOf(text, [commentX, commentY])];
    var encoded := ToSafeCharCodes(properties).value;
    FromCharCodesKeepsText(encoded);
    var whole := text + METADATA_DELIMITER + encoded;
    assert text + MetadataOf(text, commentX, commentY).value == whole;
    DelimiterBeforeMetadata(text, encoded);
    assert whole[|text| + 2..] == encoded;
    assert whole[..|text|] == text;
    SafeCharCodesRoundTrip(properties);
    assert properties[..2] == [commentX, commentY];
    assert ReadProperties(attributes, text, properties)
           == Some(CommentData(Split(attributes), text, commentX, commentY, None, None));
  }
}
