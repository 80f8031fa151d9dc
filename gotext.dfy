/** The pieces of Go's `strings`, `unicode` and `bufio` packages that the
    marker filter relies on: `strings.TrimSpace`, `strings.HasPrefix` and the line splitting of
    `bufio.ScanLines`. Strings are sequences of Unicode code points. */
module GoText {

  /** `unicode.IsSpace`: the characters `strings.TrimSpace` removes. */
  predicate IsSpace(c: char) {
    c == '\t' || c == '\n' || c == '\U{000B}' || c == '\U{000C}' || c == '\r' || c == ' '
    || c == '\U{0085}' || c == '\U{00A0}' || c == '\U{1680}'
    || ('\U{2000}' <= c <= '\U{200A}')
    || c == '\U{2028}' || c == '\U{2029}' || c == '\U{202F}' || c == '\U{205F}' || c == '\U{3000}'
  }

  predicate AllSpace(s: string) {
    forall k :: 0 <= k < |s| ==> IsSpace(s[k])
  }

  /** Removes the leading white space (`TrimLeftSpec` says what remains). */
  function TrimLeft(s: string): (r: string)
    ensures |r| <= |s|
  {
    if |s| > 0 && IsSpace(s[0]) then TrimLeft(s[1..]) else s
  }

  /** Removes the trailing white space (`TrimRightSpec` says what remains). */
  function TrimRight(s: string): (r: string)
    ensures |r| <= |s|
  {
    if |s| > 0 && IsSpace(s[|s| - 1]) then TrimRight(s[..|s| - 1]) else s
  }

  /** What `TrimLeft` leaves is the suffix of `s` that starts at its first
      non-space character. */
  lemma {:induction false} TrimLeftSpec(s: string)
    ensures TrimLeft(s) == s[|s| - |TrimLeft(s)|..]
    ensures AllSpace(s[..|s| - |TrimLeft(s)|])
    ensures TrimLeft(s) == [] || !IsSpace(TrimLeft(s)[0])
  {
    if |s| > 0 && IsSpace(s[0]) {
      TrimLeftSpec(s[1..]);
      var n := |s| - |TrimLeft(s)|;
      assert s[..n] == [s[0]] + s[1..][..n - 1];
    }
  }

  /** What `TrimRight` leaves is the prefix of `s` that ends at its last
      non-space character. */
  lemma {:induction false} TrimRightSpec(s: string)
    ensures TrimRight(s) == s[..|TrimRight(s)|]
    ensures AllSpace(s[|TrimRight(s)|..])
    ensures TrimRight(s) == [] || !IsSpace(TrimRight(s)[|TrimRight(s)| - 1])
  {
    if |s| > 0 && IsSpace(s[|s| - 1]) {
      TrimRightSpec(s[..|s| - 1]);
      var n := |TrimRight(s)|;
      assert s[n..] == s[..|s| - 1][n..] + [s[|s| - 1]];
    }
  }

  /** `strings.TrimSpace`: the leading white space is removed first, then the
      trailing white space of what remains (`TrimSpaceFactor` says what the
      result is). */
  function TrimSpace(s: string): (r: string)
    ensures |r| <= |s|
  {
    TrimRight(TrimLeft(s))
  }

  /** The trimmed form of `s` is the factor of `s` that starts at index `i`,
      with only white space before it and after it; it neither starts nor
      ends with a space. */
  lemma TrimSpaceFactor(s: string) returns (i: nat)
    ensures i + |TrimSpace(s)| <= |s| && TrimSpace(s) == s[i..i + |TrimSpace(s)|]
    ensures AllSpace(s[..i]) && AllSpace(s[i + |TrimSpace(s)|..])
    ensures TrimSpace(s) == [] || (!IsSpace(TrimSpace(s)[0]) && !IsSpace(TrimSpace(s)[|TrimSpace(s)| - 1]))
  {
    var left := TrimLeft(s);
    TrimLeftSpec(s);
    TrimRightSpec(left);
    i := |s| - |left|;
    var r := TrimRight(left);
    assert r == TrimSpace(s);
    assert left == s[i..];
    assert r == left[..|r|];
    assert s[i..i + |r|] == r;
    assert s[i + |r|..] == left[|r|..];
    if r != [] {
      assert r[0] == left[0];
    }
  }

  /** Trimming white space from around a text that neither starts nor ends
      with a space gives back that text. */
  lemma TrimSpaceOf(before: string, core: string, after: string)
    requires AllSpace(before) && AllSpace(after)
    requires core != [] && !IsSpace(core[0]) && !IsSpace(core[|core| - 1])
    ensures TrimSpace(before + core + after) == core
  {
    TrimLeftSpaces(before, core + after);
    assert before + core + after == before + (core + after);
    TrimRightSpaces(core, after);
  }

  lemma {:induction false} TrimLeftSpaces(spaces: string, s: string)
    requires AllSpace(spaces)
    requires s != [] && !IsSpace(s[0])
    ensures TrimLeft(spaces + s) == s
  {
    if spaces != [] {
      assert (spaces + s)[1..] == spaces[1..] + s;
      TrimLeftSpaces(spaces[1..], s);
    }
  }

  lemma {:induction false} TrimRightSpaces(s: string, spaces: string)
    requires AllSpace(spaces)
    requires s != [] && !IsSpace(s[|s| - 1])
    ensures TrimRight(s + spaces) == s
  {
    if spaces != [] {
      var shorter := spaces[..|spaces| - 1];
      assert (s + spaces)[..|s + spaces| - 1] == s + shorter;
      TrimRightSpaces(s, shorter);
    } else {
      assert s + spaces == s;
    }
  }

  /** `strings.HasPrefix`: `s` begins with `prefix`. */
  predicate HasPrefix(s: string, prefix: string) {
    |prefix| <= |s| && s[..|prefix|] == prefix
  }

  /** Appending a space to a string does not change its trimmed form. */
  lemma {:induction false} TrimSpaceIgnoresTrailingSpace(s: string, c: char)
    requires IsSpace(c)
    ensures TrimSpace(s + [c]) == TrimSpace(s)
  {
    TrimLeftAppendSpace(s, c);
    var l := TrimLeft(s);
    if l != [] {
      assert (l + [c])[..|l + [c]| - 1] == l;
    }
  }

  lemma {:induction false} TrimLeftAppendSpace(s: string, c: char)
    requires IsSpace(c)
    ensures TrimLeft(s + [c]) == if TrimLeft(s) == [] then [] else TrimLeft(s) + [c]
  {
    if |s| > 0 && IsSpace(s[0]) {
      assert (s + [c])[1..] == s[1..] + [c];
      TrimLeftAppendSpace(s[1..], c);
    } else if s == [] {
      assert (s + [c])[1..] == [];
    }
  }

  /** `dropCR` of `bufio`: removes one trailing carriage return, if present. */
  function DropCR(s: string): (r: string)
    ensures |r| <= |s|
  {
    if |s| > 0 && s[|s| - 1] == '\r' then s[..|s| - 1] else s
  }

  /** Dropping a carriage return never changes a line's trimmed form. */
  lemma TrimSpaceDropCR(s: string)
    ensures TrimSpace(DropCR(s)) == TrimSpace(s)
  {
    if |s| > 0 && s[|s| - 1] == '\r' {
      assert s == s[..|s| - 1] + ['\r'];
      TrimSpaceIgnoresTrailingSpace(s[..|s| - 1], '\r');
    }
  }

  /** The index of the first newline in `t`, or `|t|` when there is none
      (`NewlineIndexSpec`). */
  function NewlineIndex(t: string): (i: nat)
    ensures i <= |t|
  {
    if t == [] || t[0] == '\n' then 0 else 1 + NewlineIndex(t[1..])
  }

  lemma {:induction false} NewlineIndexSpec(t: string)
    ensures NewlineIndex(t) < |t| ==> t[NewlineIndex(t)] == '\n'
    ensures '\n' !in t[..NewlineIndex(t)]
  {
    if t != [] && t[0] != '\n' {
      NewlineIndexSpec(t[1..]);
      assert t[..NewlineIndex(t)] == [t[0]] + t[1..][..NewlineIndex(t[1..])];
    }
  }

  /** `bufio.ScanLines`, applied until the input is exhausted: the text is
      split at each newline, one trailing carriage return is dropped from every
      line, a last segment without a newline is still a line, and a final
      newline does not start an extra empty line. */
  function ScanLines(t: string): (lines: seq<string>)
    decreases |t|
  {
    if t == [] then []
    else
      var i := NewlineIndex(t);
      if i < |t| then [DropCR(t[..i])] + ScanLines(t[i + 1..])
      else [DropCR(t)]
  }

  /** No scanned line contains a newline, and there are no more lines than
      characters; only the empty text has no line at all. */
  lemma {:induction false} ScanLinesShape(t: string)
    ensures forall k :: 0 <= k < |ScanLines(t)| ==> '\n' !in ScanLines(t)[k]
    ensures |ScanLines(t)| <= |t|
    ensures t == [] <==> ScanLines(t) == []
    decreases |t|
  {
    if t != [] {
      var i := NewlineIndex(t);
      NewlineIndexSpec(t);
      if i < |t| {
        ScanLinesShape(t[i + 1..]);
        var lines := ScanLines(t);
        forall k | 0 <= k < |lines| ensures '\n' !in lines[k] {
          if k > 0 {
            assert lines[k] == ScanLines(t[i + 1..])[k - 1];
          }
        }
      }
    }
  }

  /** The scanner's splitting of a line that ends in a newline: the line comes
      out first, and scanning continues after the newline. */
  lemma {:induction false} ScanLinesCons(line: string, rest: string)
    requires '\n' !in line
    ensures ScanLines(line + "\n" + rest) == [DropCR(line)] + ScanLines(rest)
  {
    var t := line + "\n" + rest;
    NewlineIndexOf(line, rest);
    assert t[..|line|] == line;
    assert t[|line| + 1..] == rest;
  }

  lemma {:induction false} NewlineIndexOf(line: string, rest: string)
    requires '\n' !in line
    ensures NewlineIndex(line + "\n" + rest) == |line|
  {
    if line != [] {
      assert (line + "\n" + rest)[1..] == line[1..] + "\n" + rest;
      NewlineIndexOf(line[1..], rest);
    }
  }
}
