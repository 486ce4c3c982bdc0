/**
  The imperative `MPFD::Parser`: the loops over the collected data and the
  updates of its fields, proved against the state machine of `Multipart`.
  Exceptions are returned as a `Failure`.
  */
module MultipartParser {
  import opened Search
  import opened Text
  import opened Multipart

  class Parser {
    var boundary: string
    var maxDataCollectorLength: nat
    var status: Status
    var fields: map<string, Field>
    var processingFieldName: string
    var dataCollector: string

    ghost function Abs(failure: Failure): State
      reads this
    {
      State(status, fields, processingFieldName, dataCollector, failure)
    }

    ghost predicate Valid()
      reads this
    {
      |boundary| > 0 && Ok(Abs(NoFailure))
    }

    /** `boundary` is the delimiter `SetContentType` stores: two dashes and the boundary parameter. */
    constructor (parameter: string)
      ensures Valid() && boundary == "--" + parameter && maxDataCollectorLength == 16 * 1024 * 1024
      ensures Abs(NoFailure) == START
    {
      boundary := "--" + parameter;
      maxDataCollectorLength := 16 * 1024 * 1024;
      status, fields, processingFieldName, dataCollector := LookingForStartingBoundary, map[], "", "";
    }

    method TruncateDataCollectorFromTheBeginning(n: nat)
      requires n <= |dataCollector|
      modifies this`dataCollector
      ensures dataCollector == old(dataCollector)[n..]
    {
      dataCollector := dataCollector[n..];
    }

    method BoundaryPositionInDataCollector() returns (r: int)
      requires |boundary| > 0
      ensures r == IndexOf(dataCollector, boundary)
    {
      var bl := |boundary|;
      if |dataCollector| >= bl {
        var i := 0;
        while i <= |dataCollector| - bl
          invariant 0 <= i <= |dataCollector| - bl + 1
          invariant forall k | 0 <= k < i :: !At(dataCollector, boundary, k)
        {
          var found := true;
          var j := 0;
          while j < bl && found
            invariant 0 <= j <= bl
            invariant found ==> dataCollector[i..i + j] == boundary[..j]
            invariant !found ==> !At(dataCollector, boundary, i)
            decreases found, bl - j
          {
            if dataCollector[i + j] != boundary[j] {
              AtChar(dataCollector, boundary, i, j);
              found := false;
            } else {
              assert dataCollector[i..i + j + 1] == dataCollector[i..i + j] + [boundary[j]];
              j := j + 1;
            }
          }
          if found {
            assert boundary[..bl] == boundary;
            FirstUnique(dataCollector, boundary, i);
            return i;
          }
          i := i + 1;
        }
      }
      AbsentMeansNone(dataCollector, boundary);
      return -1;
    }

    method FindStartingBoundaryAndTruncData() returns (found: bool)
      requires Valid()
      modifies this`dataCollector
      ensures var n := IndexOf(old(dataCollector), boundary);
              && found == (n >= 0)
              && dataCollector == if n >= 0 then old(dataCollector)[n + |boundary|..] else old(dataCollector)
    {
      var n := BoundaryPositionInDataCollector();
      found := n >= 0;
      if found {
        TruncateDataCollectorFromTheBeginning(n + |boundary|);
      }
    }

    /** The media type, as far as it is kept; a `substr` length below zero takes all that is left. */
    method FindMimeType(headers: string) returns (contentType: string)
      ensures contentType == MimeType(headers)
    {
      var contentTypePos := IndexOf(headers, CONTENT_TYPE);
      if contentTypePos < 0 { return ""; }
      var from := contentTypePos + |CONTENT_TYPE|;
      var contentTypeEnd := 0;
      var i := from;
      while i < |headers| && contentTypeEnd == 0
        invariant from <= i <= |headers|
        invariant if contentTypeEnd == 0 then MimeTypeEnd(headers, from) == MimeTypeEnd(headers, i)
                  else MimeTypeEnd(headers, from) == contentTypeEnd + 1 < |headers|
        decreases |headers| - i, contentTypeEnd == 0
      {
        if headers[i] == ' ' || headers[i] == '\n' || headers[i] == '\r' { contentTypeEnd := i - 1; }
        i := i + 1;
      }
      contentType := if contentTypeEnd - from >= 0 then headers[from..contentTypeEnd] else headers[from..];
    }

    /** `_ParseHeaders` */
    method ParseFieldHeaders(headers: string) returns (failure: Failure)
      modifies this`fields, this`processingFieldName
      ensures Abs(failure) == ParseHeaders(old(Abs(NoFailure)), headers)
    {
      hide IndexOf, FindFrom, MimeType;
      if IndexOf(headers, FORM_DATA) < 0 {
        return Failure(NoFormData);
      }
      var namePos := IndexOf(headers, NAME);
      if namePos < 0 {
        return Failure(NoName);
      }
      var nameEnd := FindFrom(headers, QUOTE, namePos + |NAME|);
      if nameEnd < 0 {
        return Failure(NoClosingNameQuote);
      }
      processingFieldName := headers[namePos + |NAME|..nameEnd];
      fields := fields[processingFieldName := Field(false, "", "", "")];
      var filenamePos := IndexOf(headers, FILENAME);
      if filenamePos < 0 {
        return NoFailure;
      }
      fields := fields[processingFieldName := Field(true, "", "", "")];
      assert fields == old(fields)[processingFieldName := Field(true, "", "", "")];
      var filenameEnd := FindFrom(headers, QUOTE, filenamePos + |FILENAME|);
      if filenameEnd < 0 {
        return Failure(NoClosingFilenameQuote);
      }
      var mimeType := FindMimeType(headers);
      fields := fields[processingFieldName :=
        Field(true, headers[filenamePos + |FILENAME|..filenameEnd], mimeType, "")];
      assert fields == old(fields)[processingFieldName :=
        Field(true, headers[filenamePos + |FILENAME|..filenameEnd], MimeType(headers), "")];
      return NoFailure;
    }

    method HeadersEnd() returns (r: int)
      ensures r == IndexOf(dataCollector, HEADERS_END)
    {
      var i := 0;
      while i < |dataCollector| - 3
        invariant 0 <= i
        invariant forall k | 0 <= k < i :: !At(dataCollector, HEADERS_END, k)
        decreases |dataCollector| - i
      {
        if dataCollector[i] == '\r' && dataCollector[i + 1] == '\n'
           && dataCollector[i + 2] == '\r' && dataCollector[i + 3] == '\n' {
          assert At(dataCollector, HEADERS_END, i) by { assert dataCollector[i..i + 4] == HEADERS_END; }
          FirstUnique(dataCollector, HEADERS_END, i);
          return i;
        }
        assert !At(dataCollector, HEADERS_END, i) by {
          AtChar(dataCollector, HEADERS_END, i, 0);
          AtChar(dataCollector, HEADERS_END, i, 1);
          AtChar(dataCollector, HEADERS_END, i, 2);
          AtChar(dataCollector, HEADERS_END, i, 3);
        }
        i := i + 1;
      }
      AbsentMeansNone(dataCollector, HEADERS_END);
      return -1;
    }

    method WaitForHeadersEndAndParseThem() returns (found: bool, failure: Failure)
      requires Valid() && status.ProcessingHeaders?
      modifies this
      ensures boundary == old(boundary) && maxDataCollectorLength == old(maxDataCollectorLength)
      ensures HeadersTurn(old(Abs(NoFailure))) ==
              Turn(if found then Abs(failure).(status := ProcessingContentOfTheField) else Abs(failure), found)
      ensures status == old(status) && (found ==> failure.NoFailure? && processingFieldName in fields)
    {
      var i := HeadersEnd();
      if i < 0 {
        return false, NoFailure;
      }
      failure := ParseFieldHeaders(CString(dataCollector[..i]));
      if failure.Failure? {
        return false, failure;
      }
      TruncateDataCollectorFromTheBeginning(i + 4);
      return true, NoFailure;
    }

    /** Returns true when the boundary that ends the field has been seen. */
    method ProcessContentOfTheField() returns (found: bool)
      requires Valid() && status.ProcessingContentOfTheField?
      modifies this
      ensures boundary == old(boundary) && maxDataCollectorLength == old(maxDataCollectorLength)
      ensures ContentTurn(boundary, old(Abs(NoFailure))) == Turn(Abs(NoFailure), found)
      ensures Valid()
    {
      var boundaryPosition := BoundaryPositionInDataCollector();
      var toSend := if boundaryPosition >= 0 then boundaryPosition - 2 else |dataCollector| - (|boundary| + 2);
      if toSend > 0 {
        var field := fields[processingFieldName];
        fields := fields[processingFieldName := field.(content := field.content + dataCollector[..toSend])];
        TruncateDataCollectorFromTheBeginning(toSend);
      }
      found := boundaryPosition >= 0;
      if found {
        status := LookingForStartingBoundary;
      }
    }

    /** The `switch` inside the loop of `_ProcessData`. */
    method OneTurn() returns (needToRepeat: bool, failure: Failure)
      requires Valid()
      modifies this
      ensures boundary == old(boundary) && maxDataCollectorLength == old(maxDataCollectorLength)
      ensures TakeTurn(boundary, old(Abs(NoFailure))) == Turn(Abs(failure), needToRepeat)
      ensures needToRepeat ==> failure.NoFailure?
    {
      failure := NoFailure;
      match status {
        case LookingForStartingBoundary =>
          needToRepeat := FindStartingBoundaryAndTruncData();
          if needToRepeat {
            status := ProcessingHeaders;
          }
        case ProcessingHeaders =>
          needToRepeat, failure := WaitForHeadersEndAndParseThem();
          if needToRepeat {
            status := ProcessingContentOfTheField;
          }
        case ProcessingContentOfTheField =>
          needToRepeat := ProcessContentOfTheField();
      }
    }

    /** `_ProcessData` */
    method ProcessData() returns (failure: Failure)
      requires Valid()
      modifies this
      ensures boundary == old(boundary) && maxDataCollectorLength == old(maxDataCollectorLength)
      ensures Valid() && Abs(failure) == Drain(boundary, old(Abs(NoFailure)))
    {
      ghost var s := Abs(NoFailure);
      var needToRepeat := true;
      failure := NoFailure;
      while needToRepeat
        invariant boundary == old(boundary) && maxDataCollectorLength == old(maxDataCollectorLength)
        invariant Ok(s) && Abs(failure) == s && (needToRepeat ==> failure.NoFailure?)
        invariant Drain(boundary, old(Abs(NoFailure))) == if needToRepeat then Drain(boundary, s) else s
        decreases needToRepeat, |s.buffer|, Rank(s)
      {
        TurnProgress(boundary, s);
        ghost var t := TakeTurn(boundary, s);
        needToRepeat, failure := OneTurn();
        s := t.state;
      }
    }

    method AcceptSomeData(data: string) returns (failure: Failure)
      requires Valid()
      modifies this
      ensures boundary == old(boundary) && maxDataCollectorLength == old(maxDataCollectorLength)
      ensures Valid()
      ensures Abs(failure) == Accept(boundary, maxDataCollectorLength, old(Abs(NoFailure)), data)
    {
      dataCollector := dataCollector + data;
      if |dataCollector| > maxDataCollectorLength {
        return Failure(TooLong);
      }
      failure := ProcessData();
    }
  }
}
