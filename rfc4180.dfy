/**
 * A reader for the CSV format of section 2 of RFC 4180, used as the
 * independent reference against which the exporter's text is checked.
 *
 * - records are separated by CRLF; a CRLF after the last record is optional;
 * - fields of a record are separated by commas;
 * - a field is either quoted, `"` ... `"`, where `""` stands for one `"` and
 *   commas, CR and LF are plain text, or unquoted, made of characters other
 *   than `"`, `,`, CR and LF;
 * - the empty text holds no record.
 *
 * Every parse step returns what it read and the text left after it, or
 * `None` when the text is not CSV.
 */
module Rfc4180 {
  import opened Optional

  const DQuote: char := '"'
  const Comma: char := ','
  const CR: char := '\r'
  const LF: char := '\n'

  /**
   * The body of a quoted field, read after its opening quote: up to the
   * closing quote, which is consumed; `""` reads as one quote.
   */
  function QuotedBody(s: string): (r: Option<(string, string)>)
    ensures r.Some? ==> |r.value.1| < |s|
    decreases |s|
  {
    if s == [] then None
    else if s[0] == DQuote then
      if |s| >= 2 && s[1] == DQuote then
        match QuotedBody(s[2..])
        case None => None
        case Some((text, rest)) => Some(([DQuote] + text, rest))
      else Some(([], s[1..]))
    else
      match QuotedBody(s[1..])
      case None => None
      case Some((text, rest)) => Some(([s[0]] + text, rest))
  }

  predicate IsTextData(c: char)
  {
    c != DQuote && c != Comma && c != CR && c != LF
  }

  /** The longest prefix of `s` that an unquoted field may hold, and what follows it. */
  function UnquotedText(s: string): (r: (string, string))
    ensures r.0 + r.1 == s
    ensures forall i :: 0 <= i < |r.0| ==> IsTextData(r.0[i])
    ensures r.1 == [] || !IsTextData(r.1[0])
  {
    if s == [] || !IsTextData(s[0]) then ([], s)
    else
      var next := UnquotedText(s[1..]);
      ([s[0]] + next.0, next.1)
  }

  /** One field, quoted or not. */
  function Field(s: string): (r: Option<(string, string)>)
    ensures r.Some? ==> |r.value.1| <= |s|
  {
    if s != [] && s[0] == DQuote then QuotedBody(s[1..])
    else Some(UnquotedText(s))
  }

  /**
   * One record: fields separated by commas, ended by the end of the text or
   * by CRLF (consumed). A field followed by anything else is an error.
   */
  function Record(s: string): (r: Option<(seq<string>, string)>)
    ensures r.Some? ==> |r.value.0| >= 1
    ensures r.Some? ==> |r.value.1| < |s| || r.value.1 == []
    decreases |s|
  {
    match Field(s)
    case None => None
    case Some((field, t)) =>
      if t == [] then Some(([field], []))
      else if t[0] == Comma then
        match Record(t[1..])
        case None => None
        case Some((fields, rest)) => Some(([field] + fields, rest))
      else if |t| >= 2 && t[0] == CR && t[1] == LF then Some(([field], t[2..]))
      else None
  }

  /** A whole CSV text: its records in order. */
  function Decode(s: string): Option<seq<seq<string>>>
    decreases |s|
  {
    if s == [] then Some([])
    else
      match Record(s)
      case None => None
      case Some((record, rest)) =>
        match Decode(rest)
        case None => None
        case Some(records) => Some([record] + records)
  }

  /** The split of `UnquotedText` is the only one its postconditions allow. */
  lemma {:induction false} UnquotedTextSplit(text: string, rest: string)
    requires forall i :: 0 <= i < |text| ==> IsTextData(text[i])
    requires rest == [] || !IsTextData(rest[0])
    ensures UnquotedText(text + rest) == (text, rest)
    decreases |text|
  {
    if text != [] {
      var s := text + rest;
      assert s[0] == text[0] && IsTextData(s[0]);
      assert s[1..] == text[1..] + rest;
      UnquotedTextSplit(text[1..], rest);
      var next := UnquotedText(s[1..]);
      assert next == (text[1..], rest);
      assert UnquotedText(s) == ([s[0]] + next.0, next.1);
      assert [text[0]] + text[1..] == text;
    } else {
      assert text + rest == rest;
    }
  }

  /** What the reader refuses: a quote in an unquoted field, a quoted field never closed. */
  lemma RejectsMalformed()
    ensures Decode("a\"b") == None
    ensures Decode("\"ab") == None
    ensures Decode("\"a\"b") == None
  {
    UnquotedTextSplit("a", "\"b");
    assert "a" + "\"b" == "a\"b";
    assert "\"ab"[1..] == "ab";
    assert "ab"[1..] == "b" && "b"[1..] == [];
    assert QuotedBody("ab") == None;
    assert "\"a\"b"[1..] == "a\"b";
    assert "a\"b"[1..] == "\"b";
    assert "\"b"[1..] == "b";
    assert QuotedBody("a\"b") == Some(("a", "b"));
  }

  /** A final CRLF is optional: with or without it the text holds the same records. */
  lemma FinalLineBreakOptional()
    ensures Decode("a\r\n") == Decode("a") == Some([["a"]])
  {
    UnquotedTextSplit("a", "\r\n");
    UnquotedTextSplit("a", []);
    assert "a" + "\r\n" == "a\r\n";
    assert "a" + [] == "a";
    assert "\r\n"[2..] == [];
    assert Field("a\r\n") == Some(("a", "\r\n"));
    assert Record("a\r\n") == Some((["a"], []));
    assert Field("a") == Some(("a", []));
    assert Record("a") == Some((["a"], []));
    assert Decode([]) == Some([]);
    assert [["a"]] + [] == [["a"]];
  }
}
