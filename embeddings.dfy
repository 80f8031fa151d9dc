/** The marker-line filter `stripEmbedding` and the decision part of
    `getEmbedding` of the `mdembed` tool. A document is the sequence of lines
    `bufio.ScanLines` yields for it (`GoText.ScanLines`); the filter drops
    every line whose trimmed form begins with `<!-- embedding:` and writes
    each other line, followed by a newline, to a buffer. */
module Embeddings {
  import opened GoText

  /** The prefix that marks a line of earlier embedding metadata. */
  const Marker := "<!-- embedding:"

  /** A marker line: its trimmed form begins with `Marker`. */
  predicate IsMarker(line: string) {
    HasPrefix(TrimSpace(line), Marker)
  }

  predicate NoNewlines(lines: seq<string>) {
    forall k :: 0 <= k < |lines| ==> '\n' !in lines[k]
  }

  predicate EndsInCR(line: string) {
    |line| > 0 && line[|line| - 1] == '\r'
  }

  /** The lines the filter keeps, in their original order. */
  function Kept(lines: seq<string>): (kept: seq<string>)
    ensures |kept| <= |lines|
  {
    if lines == [] then []
    else
      var last := lines[|lines| - 1];
      Kept(lines[..|lines| - 1]) + (if IsMarker(last) then [] else [last])
  }

  /** Every line followed by its own newline, one after the other. */
  function Terminated(lines: seq<string>): string {
    if lines == [] then []
    else Terminated(lines[..|lines| - 1]) + lines[|lines| - 1] + "\n"
  }

  /** `strings.Join(lines, "\n")`: the lines with a newline between each two. */
  function Join(lines: seq<string>): string {
    if lines == [] then ""
    else if |lines| == 1 then lines[0]
    else lines[0] + "\n" + Join(lines[1..])
  }

  /** What `stripEmbedding` returns for a document of these lines. */
  function Strip(lines: seq<string>): string {
    Terminated(Kept(lines))
  }

  /** `bufio.ScanLines`'s treatment of every line: one trailing carriage
      return removed. */
  function DropCRs(lines: seq<string>): (r: seq<string>)
    ensures |r| == |lines|
  {
    seq(|lines|, k requires 0 <= k < |lines| => DropCR(lines[k]))
  }

  /** The scanning loop of `stripEmbedding`: `b` holds the kept lines seen so
      far, each followed by a newline. */
  method StripEmbedding(lines: seq<string>) returns (text: string)
    ensures text == Strip(lines)
  {
    var b := "";
    for i := 0 to |lines|
      invariant b == Terminated(Kept(lines[..i]))
    {
      var line := lines[i];
      assert lines[..i + 1] == lines[..i] + [line];
      KeptAppend(lines[..i], [line]);
      KeptSingle(line);
      ghost var kept := Kept(lines[..i]);
      if IsMarker(line) {
        assert kept + [] == kept;
        continue;
      }
      assert (kept + [line])[..|kept|] == kept;
      b := b + line + "\n";
    }
    assert lines[..|lines|] == lines;
    text := b;
  }

  // ---------------------------------------------------------------------------
  // Which lines survive, and in what order

  /** Filtering two documents one after the other is filtering their
      concatenation: the relative order of the kept lines is that of the
      input. */
  lemma {:induction false} KeptAppend(a: seq<string>, b: seq<string>)
    ensures Kept(a + b) == Kept(a) + Kept(b)
  {
    if b == [] {
      assert a + b == a;
    } else {
      var b' := b[..|b| - 1];
      assert (a + b)[..|a + b| - 1] == a + b';
      assert (a + b)[|a + b| - 1] == b[|b| - 1];
      KeptAppend(a, b');
    }
  }

  /** A one-line document: the line survives exactly when it is no marker. */
  lemma KeptSingle(line: string)
    ensures Kept([line]) == if IsMarker(line) then [] else [line]
  {
    assert [line][..0] == [];
  }

  /** The kept lines are exactly the input lines that are not marker lines,
      unaltered (not even trimmed). */
  lemma {:induction false} KeptMembers(lines: seq<string>, x: string)
    ensures x in Kept(lines) <==> x in lines && !IsMarker(x)
  {
    if lines != [] {
      var init := lines[..|lines| - 1];
      assert lines == init + [lines[|lines| - 1]];
      KeptMembers(init, x);
    }
  }

  /** The filter changes nothing exactly when no line is a marker line. */
  lemma {:induction false} KeptAll(lines: seq<string>)
    ensures Kept(lines) == lines <==> forall k :: 0 <= k < |lines| ==> !IsMarker(lines[k])
  {
    if forall k :: 0 <= k < |lines| ==> !IsMarker(lines[k]) {
      if lines != [] {
        var init := lines[..|lines| - 1];
        assert forall k :: 0 <= k < |init| ==> !IsMarker(init[k]) by {
          forall k | 0 <= k < |init| ensures !IsMarker(init[k]) {
            assert init[k] == lines[k];
          }
        }
        KeptAll(init);
        assert lines == init + [lines[|lines| - 1]];
      }
    } else {
      var k :| 0 <= k < |lines| && IsMarker(lines[k]);
      KeptMembers(lines, lines[k]);
    }
  }

  /** Nothing survives exactly when every line is a marker line (which holds
      of a document with no lines). */
  lemma {:induction false} KeptNone(lines: seq<string>)
    ensures Kept(lines) == [] <==> forall k :: 0 <= k < |lines| ==> IsMarker(lines[k])
  {
    if forall k :: 0 <= k < |lines| ==> IsMarker(lines[k]) {
      if lines != [] {
        var init := lines[..|lines| - 1];
        assert forall k :: 0 <= k < |init| ==> IsMarker(init[k]) by {
          forall k | 0 <= k < |init| ensures IsMarker(init[k]) {
            assert init[k] == lines[k];
          }
        }
        KeptNone(init);
      }
    } else {
      var k :| 0 <= k < |lines| && !IsMarker(lines[k]);
      KeptMembers(lines, lines[k]);
    }
  }

  // ---------------------------------------------------------------------------
  // The shape of the output text

  lemma {:induction false} TerminatedAppend(a: seq<string>, b: seq<string>)
    ensures Terminated(a + b) == Terminated(a) + Terminated(b)
  {
    if b == [] {
      assert a + b == a;
    } else {
      var b' := b[..|b| - 1];
      assert (a + b)[..|a + b| - 1] == a + b';
      assert (a + b)[|a + b| - 1] == b[|b| - 1];
      TerminatedAppend(a, b');
    }
  }

  /** The first line comes out first, followed by its newline. */
  lemma TerminatedCons(line: string, rest: seq<string>)
    ensures Terminated([line] + rest) == line + "\n" + Terminated(rest)
  {
    TerminatedAppend([line], rest);
    assert [line][..0] == [];
  }

  /** Writing each line with its newline is joining the lines with newlines
      and adding one final newline. */
  lemma {:induction false} TerminatedIsJoin(lines: seq<string>)
    requires lines != []
    ensures Terminated(lines) == Join(lines) + "\n"
  {
    TerminatedCons(lines[0], lines[1..]);
    assert lines == [lines[0]] + lines[1..];
    if |lines| > 1 {
      TerminatedIsJoin(lines[1..]);
    }
  }

  /** Every line contributes exactly one newline character. */
  lemma {:induction false} TerminatedNewlines(lines: seq<string>)
    requires NoNewlines(lines)
    ensures multiset(Terminated(lines))['\n'] == |lines|
  {
    if lines != [] {
      var init := lines[..|lines| - 1];
      var last := lines[|lines| - 1];
      assert NoNewlines(init) by {
        forall k | 0 <= k < |init| ensures '\n' !in init[k] {
          assert init[k] == lines[k];
        }
      }
      TerminatedNewlines(init);
      assert multiset(Terminated(init) + last + "\n") == multiset(Terminated(init)) + multiset(last) + multiset("\n");
    }
  }

  /** The written text is empty exactly when there are no lines, and ends in
      a newline otherwise. */
  lemma TerminatedShape(lines: seq<string>)
    ensures Terminated(lines) == [] <==> lines == []
    ensures Terminated(lines) == [] || Terminated(lines)[|Terminated(lines)| - 1] == '\n'
  {
  }

  /** The output is empty or ends in a newline, and it is empty exactly when
      every input line is a marker line. */
  lemma StripShape(lines: seq<string>)
    ensures Strip(lines) == [] || Strip(lines)[|Strip(lines)| - 1] == '\n'
    ensures Strip(lines) == [] <==> forall k :: 0 <= k < |lines| ==> IsMarker(lines[k])
  {
    KeptNone(lines);
    TerminatedShape(Kept(lines));
  }

  /** A document without marker lines comes out as its lines joined with
      newlines plus a final newline. */
  lemma StripNoMarkers(lines: seq<string>)
    requires lines != []
    requires forall k :: 0 <= k < |lines| ==> !IsMarker(lines[k])
    ensures Strip(lines) == Join(lines) + "\n"
  {
    KeptAll(lines);
    TerminatedIsJoin(lines);
  }

  /** The number of output lines is the number of kept lines, which never
      exceeds the number of input lines. */
  lemma StripLineCount(lines: seq<string>)
    requires NoNewlines(lines)
    ensures multiset(Strip(lines))['\n'] == |Kept(lines)| <= |lines|
  {
    KeptNoNewlines(lines);
    TerminatedNewlines(Kept(lines));
  }

  lemma KeptNoNewlines(lines: seq<string>)
    requires NoNewlines(lines)
    ensures NoNewlines(Kept(lines))
  {
    forall k | 0 <= k < |Kept(lines)| ensures '\n' !in Kept(lines)[k] {
      KeptMembers(lines, Kept(lines)[k]);
    }
  }

  // ---------------------------------------------------------------------------
  // Reading the output again

  /** Scanning the output gives back the lines written, each without one
      trailing carriage return. */
  lemma {:induction false} ScanTerminated(lines: seq<string>)
    requires NoNewlines(lines)
    ensures ScanLines(Terminated(lines)) == DropCRs(lines)
  {
    if lines != [] {
      var rest := lines[1..];
      assert NoNewlines(rest) by {
        forall k | 0 <= k < |rest| ensures '\n' !in rest[k] {
          assert rest[k] == lines[k + 1];
        }
      }
      ScanTerminated(rest);
      ScanTerminatedCons(lines[0], rest);
      assert lines == [lines[0]] + rest;
    }
  }

  /** One step of `ScanTerminated`: the first line written. */
  lemma ScanTerminatedCons(line: string, rest: seq<string>)
    requires '\n' !in line
    requires ScanLines(Terminated(rest)) == DropCRs(rest)
    ensures ScanLines(Terminated([line] + rest)) == DropCRs([line] + rest)
  {
    TerminatedCons(line, rest);
    ScanLinesCons(line, Terminated(rest));
    DropCRsCons(line, rest);
  }

  lemma DropCRsSnoc(init: seq<string>, last: string)
    ensures DropCRs(init + [last]) == DropCRs(init) + [DropCR(last)]
  {
    var all := init + [last];
    var d := DropCRs(all);
    forall k | 0 <= k < |d| ensures d[k] == (DropCRs(init) + [DropCR(last)])[k] {
      if k < |init| {
        assert all[k] == init[k];
      }
    }
  }

  lemma DropCRsCons(line: string, rest: seq<string>)
    ensures DropCRs([line] + rest) == [DropCR(line)] + DropCRs(rest)
  {
    var all := [line] + rest;
    var d := DropCRs(all);
    forall k | 0 <= k < |d| ensures d[k] == ([DropCR(line)] + DropCRs(rest))[k] {
      if k > 0 {
        assert all[k] == rest[k - 1];
      }
    }
  }

  /** Lines that are no markers stay no markers when a carriage return is
      dropped from them. */
  lemma DropCRsKept(lines: seq<string>)
    requires forall k :: 0 <= k < |lines| ==> !IsMarker(lines[k])
    ensures Kept(DropCRs(lines)) == DropCRs(lines)
  {
    var d := DropCRs(lines);
    forall k | 0 <= k < |d| ensures !IsMarker(d[k]) {
      TrimSpaceDropCR(lines[k]);
    }
    KeptAll(d);
  }

  /** Running the filter on its own output, scanned again, writes the kept
      lines with one trailing carriage return dropped from each. */
  lemma StripRescan(lines: seq<string>)
    requires NoNewlines(lines)
    ensures Strip(ScanLines(Strip(lines))) == Terminated(DropCRs(Kept(lines)))
  {
    var kept := Kept(lines);
    KeptNoNewlines(lines);
    ScanTerminated(kept);
    forall k | 0 <= k < |kept| ensures !IsMarker(kept[k]) {
      KeptMembers(lines, kept[k]);
    }
    DropCRsKept(kept);
  }

  /** Writing one more line adds the line and its newline to the length. */
  lemma TerminatedSnoc(lines: seq<string>, line: string)
    ensures Terminated(lines + [line]) == Terminated(lines) + line + "\n"
  {
    assert (lines + [line])[..|lines|] == lines;
  }

  /** Dropping carriage returns never lengthens the output, and shortens it
      when some line ends in one. */
  lemma {:induction false} TerminatedDropCRs(lines: seq<string>)
    ensures |Terminated(DropCRs(lines))| <= |Terminated(lines)|
    ensures (exists k :: 0 <= k < |lines| && EndsInCR(lines[k])) ==> |Terminated(DropCRs(lines))| < |Terminated(lines)|
  {
    if lines != [] {
      var init := lines[..|lines| - 1];
      var last := lines[|lines| - 1];
      DropCRsSnoc(init, last);
      assert lines == init + [last];
      TerminatedSnoc(DropCRs(init), DropCR(last));
      TerminatedSnoc(init, last);
      TerminatedDropCRs(init);
      if exists k :: 0 <= k < |lines| && EndsInCR(lines[k]) {
        var k :| 0 <= k < |lines| && EndsInCR(lines[k]);
        if k < |init| {
          assert init[k] == lines[k];
        }
      }
    }
  }

  /** When no line ends in a carriage return, dropping them changes nothing. */
  lemma DropCRsNone(lines: seq<string>)
    requires forall k :: 0 <= k < |lines| ==> !EndsInCR(lines[k])
    ensures DropCRs(lines) == lines
  {
  }

  /** The filter is idempotent on scanned documents exactly when no kept line
      ends in a carriage return: the scanner drops one trailing carriage
      return per pass, the filter writes the line as it is. */
  lemma StripIdempotent(lines: seq<string>)
    requires NoNewlines(lines)
    ensures Strip(ScanLines(Strip(lines))) == Strip(lines)
        <==> forall k :: 0 <= k < |lines| && !IsMarker(lines[k]) ==> !EndsInCR(lines[k])
  {
    var kept := Kept(lines);
    StripRescan(lines);
    TerminatedDropCRs(kept);
    if forall k :: 0 <= k < |lines| && !IsMarker(lines[k]) ==> !EndsInCR(lines[k]) {
      forall k | 0 <= k < |kept| ensures !EndsInCR(kept[k]) {
        KeptMembers(lines, kept[k]);
      }
      DropCRsNone(kept);
    } else {
      var k :| 0 <= k < |lines| && !IsMarker(lines[k]) && EndsInCR(lines[k]);
      KeptMembers(lines, lines[k]);
      var j :| 0 <= j < |kept| && kept[j] == lines[k];
      assert EndsInCR(kept[j]);
    }
  }

  /** The text with a newline added unless it is empty or already ends in
      one. */
  function WithFinalNewline(t: string): (r: string)
    ensures r == t || r == t + "\n"
    ensures r == [] || r[|r| - 1] == '\n'
  {
    if t == [] || t[|t| - 1] == '\n' then t else t + "\n"
  }

  /** A document `t` without carriage returns: scanning it and writing every
      line with a newline gives back `t`, with a newline added when `t` is
      not empty and does not already end in one. */
  lemma {:induction false} TerminatedScanLines(t: string)
    requires '\r' !in t
    ensures Terminated(ScanLines(t)) == WithFinalNewline(t)
    decreases |t|
  {
    if t != [] {
      var i := NewlineIndex(t);
      NewlineIndexSpec(t);
      if i < |t| {
        var line, rest := t[..i], t[i + 1..];
        assert t == line + "\n" + rest;
        TerminatedScanLines(rest);
        TerminatedScanLinesCons(line, rest);
      } else {
        assert t[..i] == t;
        assert DropCR(t) == t;
        TerminatedSnoc([], t);
      }
    }
  }

  /** One step of `TerminatedScanLines`: a first line that ends in a newline. */
  lemma TerminatedScanLinesCons(line: string, rest: string)
    requires '\n' !in line && '\r' !in line
    requires Terminated(ScanLines(rest)) == WithFinalNewline(rest)
    ensures Terminated(ScanLines(line + "\n" + rest)) == WithFinalNewline(line + "\n" + rest)
  {
    TerminatedScanLine(line, rest);
    WithFinalNewlineCons(line, rest);
  }

  lemma TerminatedScanLine(line: string, rest: string)
    requires '\n' !in line && '\r' !in line
    ensures Terminated(ScanLines(line + "\n" + rest)) == line + "\n" + Terminated(ScanLines(rest))
  {
    ScanLinesCons(line, rest);
    assert DropCR(line) == line;
    TerminatedCons(line, ScanLines(rest));
  }

  lemma WithFinalNewlineCons(line: string, rest: string)
    ensures WithFinalNewline(line + "\n" + rest) == line + "\n" + WithFinalNewline(rest)
  {
    var t := line + "\n" + rest;
    if rest == [] {
      assert t[|t| - 1] == '\n';
    } else {
      assert t[|t| - 1] == rest[|rest| - 1];
      if rest[|rest| - 1] != '\n' {
        assert line + "\n" + (rest + "\n") == t + "\n";
      }
    }
  }

  /** A document without carriage returns and without marker lines comes out
      as it went in, up to a final newline. */
  lemma StripUnmarkedText(t: string)
    requires '\r' !in t
    requires forall k :: 0 <= k < |ScanLines(t)| ==> !IsMarker(ScanLines(t)[k])
    ensures Strip(ScanLines(t)) == WithFinalNewline(t)
  {
    KeptAll(ScanLines(t));
    TerminatedScanLines(t);
  }

  /** A document with no carriage returns at all: the filter is idempotent. */
  lemma StripIdempotentWithoutCR(t: string)
    requires '\r' !in t
    ensures Strip(ScanLines(Strip(ScanLines(t)))) == Strip(ScanLines(t))
  {
    var lines := ScanLines(t);
    ScanLinesShape(t);
    forall k | 0 <= k < |lines| ensures !EndsInCR(lines[k]) {
      ScanLinesFactor(t, k);
    }
    StripIdempotent(lines);
  }

  /** Every character of a scanned line occurs in the document. */
  lemma {:induction false} ScanLinesFactor(t: string, k: nat)
    requires k < |ScanLines(t)|
    ensures forall c :: c in ScanLines(t)[k] ==> c in t
    decreases |t|
  {
    var i := NewlineIndex(t);
    if i < |t| {
      if k == 0 {
        forall c | c in DropCR(t[..i]) ensures c in t {
          assert c in t[..i];
        }
      } else {
        ScanLinesFactor(t[i + 1..], k - 1);
        forall c | c in ScanLines(t[i + 1..])[k - 1] ensures c in t {
          assert c in t[i + 1..];
        }
      }
    } else {
      forall c | c in DropCR(t) ensures c in t {
      }
    }
  }

  /** A line ending in two carriage returns, scanned, filtered, scanned and
      filtered again, loses its remaining carriage return on the second
      pass. */
  lemma CarriageReturnNotIdempotent()
    ensures ScanLines("a\r\r\n") == ["a\r"]
    ensures Strip(ScanLines("a\r\r\n")) == "a\r\n"
    ensures Strip(ScanLines(Strip(ScanLines("a\r\r\n")))) == "a\n"
  {
    assert ScanLines("a\r\r\n") == ["a\r"] && Strip(["a\r"]) == "a\r\n" by {
      assert "a\r\r" + "\n" == "a\r\r\n";
      ScanOneLine("a\r\r");
      assert DropCR("a\r\r") == "a\r";
      assert "a\r" + "\n" == "a\r\n";
      StripOneLine("a\r");
    }
    assert ScanLines("a\r\n") == ["a"] && Strip(["a"]) == "a\n" by {
      assert "a\r" + "\n" == "a\r\n";
      ScanOneLine("a\r");
      assert DropCR("a\r") == "a";
      assert "a" + "\n" == "a\n";
      StripOneLine("a");
    }
  }

  /** A text of one line ending in a newline scans to that line. */
  lemma ScanOneLine(line: string)
    requires '\n' !in line
    ensures ScanLines(line + "\n") == [DropCR(line)]
  {
    ScanLinesCons(line, "");
    assert line + "\n" + "" == line + "\n";
  }

  /** A short one-line document is written back with its newline. */
  lemma StripOneLine(line: string)
    requires |line| < |Marker|
    ensures Strip([line]) == line + "\n"
  {
    NotMarker(line);
    KeptSingle(line);
    TerminatedSnoc([], line);
  }

  /** A line shorter than the marker is no marker line. */
  lemma NotMarker(line: string)
    requires |line| < |Marker|
    ensures !IsMarker(line)
  {
  }

  /** A marker surrounded by white space makes a marker line. */
  lemma MarkerInSpacesRemoved()
    ensures IsMarker("   <!-- embedding: x -->  ")
  {
    var core := "<!-- embedding: x -->";
    assert "   <!-- embedding: x -->  " == "   " + core + "  ";
    TrimSpaceOf("   ", core, "  ");
    assert core[..|Marker|] == Marker;
  }

  /** A line with the marker after other text is no marker line. */
  lemma MarkerAfterTextKept()
    ensures !IsMarker("text <!-- embedding: x -->")
  {
    var text := "text <!-- embedding: x -->";
    assert text == [] + text + [];
    TrimSpaceOf([], text, []);
    assert text[0] != Marker[0];
  }

  /** Of the two lines, only the one with the marker after text survives,
      unaltered and followed by a newline. */
  lemma MarkerExamples()
    ensures Strip(["   <!-- embedding: x -->  ", "text <!-- embedding: x -->"]) == "text <!-- embedding: x -->\n"
  {
    var marked, text := "   <!-- embedding: x -->  ", "text <!-- embedding: x -->";
    MarkerInSpacesRemoved();
    MarkerAfterTextKept();
    assert [marked, text] == [marked] + [text];
    KeptAppend([marked], [text]);
    KeptSingle(marked);
    KeptSingle(text);
    TerminatedSnoc([], text);
  }

  // ---------------------------------------------------------------------------
  // getEmbedding: everything but the HTTP exchange

  /** The model every request names. */
  const ModelId := "text-embedding-3-small"

  /** The fields of a request that the exchange receives. */
  datatype Request = Request(input: string, model: string, apiKey: string)

  /** What the HTTP exchange and the JSON decoding yield: the `data` list of
      the response, or the transport or decoding error. */
  datatype Exchange<T> = Decoded(data: seq<T>) | Failed(reason: string)

  datatype EmbedError = KeyNotSet | RequestFailed(reason: string) | NoEmbeddingReturned

  datatype Result<T> = Ok(value: T) | Err(error: EmbedError)

  /** The first embedding of a decoded response. */
  function FirstEmbedding<T>(response: Exchange<T>): (r: Result<T>)
    ensures r.Ok? <==> response.Decoded? && response.data != []
    ensures r.Ok? ==> r.value == response.data[0]
    ensures response.Failed? ==> r == Err(RequestFailed(response.reason))
    ensures response == Decoded([]) ==> r == Err(NoEmbeddingReturned)
  {
    match response
    case Failed(reason) => Err(RequestFailed(reason))
    case Decoded(data) => if |data| == 0 then Err(NoEmbeddingReturned) else Ok(data[0])
  }

  /** `getEmbedding` with the HTTP exchange as a parameter. An empty key is an
      error whatever the exchange would answer, so no request is needed to
      reach it; otherwise the result is the first embedding of the response
      to a request for `text` with the fixed model. */
  function GetEmbedding<T>(apiKey: string, text: string, exchange: Request -> Exchange<T>): (r: Result<T>)
    ensures r == Err(KeyNotSet) <==> apiKey == ""
    ensures r.Ok? <==> apiKey != "" && exchange(Request(text, ModelId, apiKey)).Decoded?
                                    && exchange(Request(text, ModelId, apiKey)).data != []
    ensures r.Ok? ==> r.value == exchange(Request(text, ModelId, apiKey)).data[0]
    ensures apiKey != "" ==> r == FirstEmbedding(exchange(Request(text, ModelId, apiKey)))
  {
    if apiKey == "" then Err(KeyNotSet)
    else FirstEmbedding(exchange(Request(text, ModelId, apiKey)))
  }
}
