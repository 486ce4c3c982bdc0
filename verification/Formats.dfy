/** The external formats, spelled out on small inputs: rows, requests, quoted strings, JSON and form headers. */
module Formats {
  import Decimal
  import RowCodec
  import Resp
  import SdsQuoting
  import JsonValue
  import JsonWriting
  import MultipartHeaders

  lemma OneDigit(n: nat)
    requires n < 10
    ensures Decimal.Digits(n) == ["0123456789"[n]]
  {
  }

  // ---- Rows -----------------------------------------------------------------------------------

  lemma {:induction false} ZeroBytes(width: nat)
    ensures RowCodec.BigEndianBytes(0, width) == seq(width, _ => '\0')
  {
    if width > 0 { ZeroBytes(width - 1); }
  }

  lemma NextByte(v: nat, width: nat)
    ensures RowCodec.BigEndianBytes(v, width + 1) == RowCodec.BigEndianBytes(v / 256, width) + [(v % 256) as char]
  {
  }

  lemma SmallScore()
    ensures RowCodec.ScoreImage(258) == seq(6, _ => '\0') + ['\U{1}'] + ['\U{2}']
  {
    hide RowCodec.ScoreImage, RowCodec.BigEndianBytes;
    RowCodec.BigEndian64IsBigEndian(258);
    NextByte(258, 7);
    NextByte(1, 6);
    ZeroBytes(6);
  }

  /** A value row, a member row and a score row. */
  lemma Rows()
    ensures RowCodec.KvRow("a") == "ka"
    ensures RowCodec.MemberRow("ab", "c") == "s\U{2}ab\U{1}c"
    ensures RowCodec.ScoreRow("ab", 258, "c") == "z\U{2}ab" + "\0\0\0\0\0\0\U{1}\U{2}" + ":c"
  {
    hide RowCodec.ScoreImage;
    SmallScore();
    assert RowCodec.LengthByte("ab") == '\U{2}' && RowCodec.LengthByte("c") == '\U{1}';
    assert RowCodec.ScorePrefix("ab") == "z\U{2}ab";
    assert seq(6, _ => '\0') + ['\U{1}'] + ['\U{2}'] == "\0\0\0\0\0\0\U{1}\U{2}";
  }

  // ---- Requests and replies --------------------------------------------------------------------

  lemma Replies()
    ensures Resp.Bulk("") == "$0\r\n\r\n" && Resp.Bulk("ab") == "$2\r\nab\r\n"
    ensures Resp.MultiBulk([]) == "*0\r\n" && Resp.MultiBulk(["a"]) == "*1\r\n" + "$1\r\na\r\n"
  {
    hide Decimal.Digits;
    OneDigit(0);
    OneDigit(1);
    OneDigit(2);
    assert Resp.Bulks([]) == "";
    assert Resp.Bulks(["a"]) == Resp.Bulk("a") + Resp.Bulks([]) by { assert ["a"][1..] == []; }
    assert Resp.Bulk("a") + "" == "$1\r\na\r\n";
  }

  // ---- Quoted strings ----------------------------------------------------------------------------

  /** Which bytes `sdscatrepr` writes as they are, which with a letter, and which with two hexadecimal digits. */
  lemma EscapedBytes(c: char)
    requires c as int < 256
    ensures ' ' <= c <= '~' && c != '\"' && c != '\\' ==> SdsQuoting.EscapeChar(c) == [c]
    ensures SdsQuoting.EscapeChar('\"') == "\\\"" && SdsQuoting.EscapeChar('\\') == "\\\\"
    ensures SdsQuoting.EscapeChar('\n') == "\\n" && SdsQuoting.EscapeChar('\r') == "\\r"
    ensures SdsQuoting.EscapeChar('\t') == "\\t" && SdsQuoting.EscapeChar(7 as char) == "\\a"
    ensures SdsQuoting.EscapeChar(8 as char) == "\\b" && SdsQuoting.EscapeChar(255 as char) == "\\xff"
  {
  }

  // ---- JSON -----------------------------------------------------------------------------------------

  lemma JsonWords(show: real -> string)
    ensures JsonWriting.Write(JsonValue.Null, show) == "null"
    ensures JsonWriting.Write(JsonValue.Bool(true), show) == "true" && JsonWriting.Write(JsonValue.Bool(false), show) == "false"
    ensures JsonWriting.Write(JsonValue.Arr(JsonValue.Empty), show) == "[]"
    ensures JsonWriting.Write(JsonValue.Obj(JsonValue.Empty), show) == "{}"
  {
  }

  lemma JsonArray(show: real -> string)
    ensures var e := JsonValue.Entry(JsonValue.Index(0), JsonValue.Null,
                       JsonValue.Entry(JsonValue.Index(1), JsonValue.Bool(true), JsonValue.Empty));
            JsonWriting.WellFormed(JsonValue.Arr(e)) && JsonWriting.Write(JsonValue.Arr(e), show) == "[null,true]"
  {
  }

  lemma JsonObject(show: real -> string)
    ensures var e := JsonValue.Entry(JsonValue.Name("a"), JsonValue.Null, JsonValue.Empty);
            JsonWriting.WellFormed(JsonValue.Obj(e)) && JsonWriting.Write(JsonValue.Obj(e), show) == "{\"a\":null}"
  {
    assert JsonWriting.Escape("a") == "a";
  }

  // ---- Form headers ------------------------------------------------------------------------------------

  /** The headers of a text part and of a file part. */
  lemma Headers(name: string, fileName: string, mediaType: string, content: string)
    ensures MultipartHeaders.LEAD == "\r\n" + "Content-Disposition: form-data;" + " name="
    ensures MultipartHeaders.FILE_LEAD == "; filename="
    ensures MultipartHeaders.HeaderText(MultipartHeaders.TextPart(name, content))
         == MultipartHeaders.LEAD + ("\"" + name + "\"")
    ensures MultipartHeaders.MediaText(MultipartHeaders.Media(mediaType, "")) == "\r\nContent-Type: " + mediaType
    ensures MultipartHeaders.HeaderText(
              MultipartHeaders.FilePart(name, fileName, MultipartHeaders.NoMedia, content))
         == MultipartHeaders.LEAD + ("\"" + name + "\"") + (MultipartHeaders.FILE_LEAD + ("\"" + fileName + "\""))
  {
    var lead, fileLead := MultipartHeaders.LEAD, MultipartHeaders.FILE_LEAD;
    QuotedAs(lead, '\"', name, "");
    QuotedAs(fileLead, '\"', fileName, "");
    QuotedAs(lead, '\"', name, fileLead + ("\"" + fileName + "\""));
    assert "\r\n" + "Content-Type: " + mediaType + "" == "\r\nContent-Type: " + mediaType;
  }

  lemma QuotedAs(lead: string, q: char, text: string, rest: string)
    ensures lead + [q] + (text + [q] + rest) == lead + ([q] + text + [q]) + rest
    ensures lead + [q] + (text + [q] + "") == lead + ([q] + text + [q])
  {
  }
}
