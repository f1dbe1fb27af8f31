/**
 * The list of URLs to visit. With a URL file, the file is split into lines
 * the way a line scanner does, each line is trimmed of white space, and the
 * lines left empty are dropped; the rest keep their order. With a single URL,
 * the list is that URL alone.
 */
module UrlList {
  import opened Common

  // ---------------------------------------------------------------------------
  // White space and trimming
  // ---------------------------------------------------------------------------

  /**
   * White space as the trimming routine understands it: the six ASCII
   * spaces, NEL, NO-BREAK SPACE and the other Unicode White_Space characters.
   */
  predicate IsSpace(c: char) {
    c == '\t' || c == '\n' || c == '\U{000B}' || c == '\U{000C}' || c == '\r' || c == ' '
    || c == '\U{0085}' || c == '\U{00A0}' || c == '\U{1680}'
    || ('\U{2000}' <= c <= '\U{200A}')
    || c == '\U{2028}' || c == '\U{2029}' || c == '\U{202F}' || c == '\U{205F}' || c == '\U{3000}'
  }

  /** `s` without its leading white space. */
  function TrimLeft(s: string): (t: string)
    ensures |t| <= |s| && t == s[|s| - |t|..]
    ensures forall k :: 0 <= k < |s| - |t| ==> IsSpace(s[k])
    ensures t == [] || !IsSpace(t[0])
  {
    if s != [] && IsSpace(s[0]) then
      var r := TrimLeft(s[1..]);
      assert s[1..][|s| - 1 - |r|..] == s[|s| - |r|..];
      assert forall k :: 1 <= k < |s| - |r| ==> s[k] == s[1..][k - 1];
      r
    else s
  }

  /** `s` without its trailing white space. */
  function TrimRight(s: string): (t: string)
    ensures |t| <= |s| && t == s[..|t|]
    ensures forall k :: |t| <= k < |s| ==> IsSpace(s[k])
    ensures t == [] || !IsSpace(t[|t| - 1])
  {
    if s != [] && IsSpace(s[|s| - 1]) then
      var r := TrimRight(s[..|s| - 1]);
      assert s[..|s| - 1][..|r|] == s[..|r|];
      assert forall k :: |r| <= k < |s| - 1 ==> s[k] == s[..|s| - 1][k];
      r
    else s
  }

  /**
   * `s` without leading and trailing white space: a stretch of `s` that, when
   * not empty, begins and ends with a character that is not white space.
   */
  function TrimSpace(s: string): (t: string)
    ensures |t| <= |s|
    ensures t != [] ==> !IsSpace(t[0]) && !IsSpace(t[|t| - 1])
  {
    var l := TrimLeft(s);
    var t := TrimRight(l);
    if t == [] then t
    else
      assert l[0] == t[0];
      t
  }

  /** Trimming leaves nothing exactly when the line is all white space. */
  lemma TrimSpaceBlank(s: string)
    ensures TrimSpace(s) == [] <==> forall k :: 0 <= k < |s| ==> IsSpace(s[k])
  {
    var l := TrimLeft(s);
    if TrimRight(l) == [] {
      assert |l| == 0;
    } else {
      assert l[0] == TrimRight(l)[0];
      assert !IsSpace(s[|s| - |l|]);
    }
  }

  /**
   * Trimming removes exactly the white-space padding: a core that starts and
   * ends with a non-space character comes back unchanged from between any
   * white-space padding.
   */
  lemma TrimSpaceOfPadded(left: string, core: string, right: string)
    requires forall k :: 0 <= k < |left| ==> IsSpace(left[k])
    requires forall k :: 0 <= k < |right| ==> IsSpace(right[k])
    requires core != [] ==> !IsSpace(core[0]) && !IsSpace(core[|core| - 1])
    ensures TrimSpace(left + core + right) == core
  {
    var s := left + core + right;
    if core == [] {
      assert forall k :: 0 <= k < |s| ==> IsSpace(s[k]) by {
        forall k | 0 <= k < |s| ensures IsSpace(s[k]) {
          if k < |left| { assert s[k] == left[k]; } else { assert s[k] == right[k - |left|]; }
        }
      }
    } else {
      TrimLeftOfPadded(left, core + right);
      assert left + core + right == left + (core + right);
      TrimRightOfPadded(core, right);
    }
  }

  lemma {:induction false} TrimLeftOfPadded(left: string, rest: string)
    requires forall k :: 0 <= k < |left| ==> IsSpace(left[k])
    requires rest != [] && !IsSpace(rest[0])
    ensures TrimLeft(left + rest) == rest
    decreases |left|
  {
    if left == [] {
      assert left + rest == rest;
    } else {
      assert (left + rest)[0] == left[0];
      assert (left + rest)[1..] == left[1..] + rest;
      assert forall k :: 0 <= k < |left[1..]| ==> IsSpace(left[1..][k]) by {
        forall k | 0 <= k < |left[1..]| ensures IsSpace(left[1..][k]) {
          assert left[1..][k] == left[k + 1];
        }
      }
      TrimLeftOfPadded(left[1..], rest);
    }
  }

  lemma {:induction false} TrimRightOfPadded(rest: string, right: string)
    requires forall k :: 0 <= k < |right| ==> IsSpace(right[k])
    requires rest != [] && !IsSpace(rest[|rest| - 1])
    ensures TrimRight(rest + right) == rest
    decreases |right|
  {
    if right == [] {
      assert rest + right == rest;
    } else {
      assert (rest + right)[|rest + right| - 1] == right[|right| - 1];
      assert (rest + right)[..|rest + right| - 1] == rest + right[..|right| - 1];
      TrimRightOfPadded(rest, right[..|right| - 1]);
    }
  }

  /** Trimming twice is trimming once. */
  lemma TrimSpaceIdempotent(s: string)
    ensures TrimSpace(TrimSpace(s)) == TrimSpace(s)
  {
    var t := TrimSpace(s);
    assert TrimLeft(t) == t;
    assert TrimRight(t) == t;
  }

  // ---------------------------------------------------------------------------
  // Splitting a file into lines
  // ---------------------------------------------------------------------------

  /** The position of the first line feed in `s`, or `|s|` when there is none. */
  function NewlineIndex(s: string): (i: nat)
    ensures i <= |s|
    ensures forall k :: 0 <= k < i ==> s[k] != '\n'
    ensures i == |s| || s[i] == '\n'
  {
    if s == [] then 0
    else if s[0] == '\n' then 0
    else 1 + NewlineIndex(s[1..])
  }

  /** A line without the carriage return that ends it, if any. */
  function DropCR(line: string): (r: string)
    ensures r == line || (line == r + "\r")
    ensures '\n' !in line ==> '\n' !in r
  {
    if line != [] && line[|line| - 1] == '\r' then line[..|line| - 1] else line
  }

  /**
   * The lines of a file as a line scanner yields them: split at each line
   * feed, a final line without a line feed kept when it is not empty, and a
   * carriage return at the end of a line dropped.
   */
  function Lines(text: string): (ls: seq<string>)
    ensures |ls| <= |text|
    decreases |text|
  {
    if text == [] then []
    else
      var i := NewlineIndex(text);
      if i < |text| then [DropCR(text[..i])] + Lines(text[i + 1..])
      else [DropCR(text)]
  }

  /** A file whose last line has no line feed: that line is yielded, without a trailing carriage return. */
  lemma FinalLine(line: string)
    requires line != [] && '\n' !in line
    ensures Lines(line) == [DropCR(line)]
  {
    assert NewlineIndex(line) == |line|;
  }

  /** No line the scanner yields holds a line feed. */
  lemma {:induction false} LinesHoldNoLineFeed(text: string)
    ensures forall k :: 0 <= k < |Lines(text)| ==> '\n' !in Lines(text)[k]
    decreases |text|
  {
    if text != [] {
      var i := NewlineIndex(text);
      if i < |text| {
        LinesHoldNoLineFeed(text[i + 1..]);
        assert '\n' !in text[..i];
        var ls := Lines(text);
        var rest := Lines(text[i + 1..]);
        assert ls == [DropCR(text[..i])] + rest;
        forall k | 0 <= k < |ls| ensures '\n' !in ls[k] {
          if k > 0 {
            assert ls[k] == rest[k - 1];
          }
        }
      } else {
        assert '\n' !in text;
      }
    }
  }

  /** A line followed by a line feed is split off as the first line. */
  lemma LinesOfLineFeed(line: string, rest: string)
    requires '\n' !in line
    ensures Lines(line + "\n" + rest) == [DropCR(line)] + Lines(rest)
  {
    var text := line + "\n" + rest;
    NewlineIndexAfter(line, "\n" + rest);
    assert text == line + ("\n" + rest);
    assert text[..|line|] == line;
    assert text[|line| + 1..] == rest;
  }

  lemma {:induction false} NewlineIndexAfter(line: string, rest: string)
    requires '\n' !in line && rest != [] && rest[0] == '\n'
    ensures NewlineIndex(line + rest) == |line|
    decreases |line|
  {
    if line == [] {
      assert line + rest == rest;
    } else {
      assert (line + rest)[1..] == line[1..] + rest;
      NewlineIndexAfter(line[1..], rest);
    }
  }

  /** The file holding `ls`, each line followed by a line feed. */
  function JoinLines(ls: seq<string>): (text: string)
    ensures |text| >= |ls|
  {
    if ls == [] then "" else ls[0] + "\n" + JoinLines(ls[1..])
  }

  /** A line as the scanner can yield it unchanged: no line feed, and no carriage return at its end. */
  predicate IsPlainLine(line: string) {
    '\n' !in line && (line == [] || line[|line| - 1] != '\r')
  }

  /** Splitting undoes joining, for plain lines. */
  lemma {:induction false} LinesOfJoinLines(ls: seq<string>)
    requires forall k :: 0 <= k < |ls| ==> IsPlainLine(ls[k])
    ensures Lines(JoinLines(ls)) == ls
  {
    if ls != [] {
      var rest := ls[1..];
      forall k | 0 <= k < |rest| ensures IsPlainLine(rest[k]) {
        assert rest[k] == ls[k + 1];
      }
      LinesOfJoinLines(rest);
      assert IsPlainLine(ls[0]);
      LinesOfLineFeed(ls[0], JoinLines(rest));
      assert ls == [ls[0]] + rest;
    }
  }

  // ---------------------------------------------------------------------------
  // Trimmed, non-blank lines
  // ---------------------------------------------------------------------------

  /** The trimmed lines of `lines` that are not empty once trimmed, in order. */
  function NonBlankTrimmed(lines: seq<string>): (urls: seq<string>)
    ensures |urls| <= |lines|
  {
    if lines == [] then []
    else
      var t := TrimSpace(lines[|lines| - 1]);
      NonBlankTrimmed(lines[..|lines| - 1]) + (if t == "" then [] else [t])
  }

  /** Extending the lines read by one line extends the list by that line's trimmed form, unless it is blank. */
  lemma NonBlankTrimmedStep(lines: seq<string>, i: nat)
    requires i < |lines|
    ensures NonBlankTrimmed(lines[..i + 1]) ==
      NonBlankTrimmed(lines[..i]) + (if TrimSpace(lines[i]) == "" then [] else [TrimSpace(lines[i])])
  {
    assert lines[..i + 1][..i] == lines[..i];
    assert lines[..i + 1][i] == lines[i];
  }

  /** The filter distributes over concatenation, so the order of lines is kept. */
  lemma {:induction false} NonBlankTrimmedAppend(a: seq<string>, b: seq<string>)
    ensures NonBlankTrimmed(a + b) == NonBlankTrimmed(a) + NonBlankTrimmed(b)
    decreases |b|
  {
    if b == [] {
      assert a + b == a;
    } else {
      var b' := b[..|b| - 1];
      assert (a + b)[..|a + b| - 1] == a + b';
      assert (a + b)[|a + b| - 1] == b[|b| - 1];
      NonBlankTrimmedAppend(a, b');
    }
  }

  /** `u` is the trimmed form of one of `lines`. */
  ghost predicate IsTrimmedLine(u: string, lines: seq<string>) {
    exists k :: 0 <= k < |lines| && TrimSpace(lines[k]) == u
  }

  /** Every URL kept is non-empty and already trimmed. */
  lemma {:induction false} NonBlankTrimmedTrimmed(lines: seq<string>)
    ensures forall u :: u in NonBlankTrimmed(lines) ==> u != "" && TrimSpace(u) == u
  {
    if lines != [] {
      var init := lines[..|lines| - 1];
      var last := TrimSpace(lines[|lines| - 1]);
      var tail := if last == "" then [] else [last];
      assert NonBlankTrimmed(lines) == NonBlankTrimmed(init) + tail;
      NonBlankTrimmedTrimmed(init);
      TrimSpaceIdempotent(lines[|lines| - 1]);
    }
  }

  /** Every URL kept is the trimmed form of one of the lines. */
  lemma {:induction false} NonBlankTrimmedSound(lines: seq<string>)
    ensures forall u :: u in NonBlankTrimmed(lines) ==> IsTrimmedLine(u, lines)
  {
    forall u | u in NonBlankTrimmed(lines)
      ensures IsTrimmedLine(u, lines)
    {
      NonBlankTrimmedOrigin(lines, u);
    }
  }

  /** One URL kept, traced back to the line it was trimmed from. */
  lemma {:induction false} NonBlankTrimmedOrigin(lines: seq<string>, u: string)
    requires u in NonBlankTrimmed(lines)
    ensures IsTrimmedLine(u, lines)
    decreases |lines|
  {
    var n := |lines| - 1;
    var init := lines[..n];
    var t := TrimSpace(lines[n]);
    var tail := if t == "" then [] else [t];
    assert NonBlankTrimmed(lines) == NonBlankTrimmed(init) + tail;
    if u in NonBlankTrimmed(init) {
      NonBlankTrimmedOrigin(init, u);
      var k :| 0 <= k < |init| && TrimSpace(init[k]) == u;
      assert lines[k] == init[k];
      assert 0 <= k < |lines| && TrimSpace(lines[k]) == u;
    } else {
      assert u in tail;
      assert 0 <= n < |lines| && TrimSpace(lines[n]) == u;
    }
  }

  /** Every line that is not blank contributes its trimmed form. */
  lemma {:induction false} NonBlankTrimmedComplete(lines: seq<string>)
    ensures forall k :: 0 <= k < |lines| && TrimSpace(lines[k]) != "" ==>
      TrimSpace(lines[k]) in NonBlankTrimmed(lines)
  {
    forall k | 0 <= k < |lines| && TrimSpace(lines[k]) != ""
      ensures TrimSpace(lines[k]) in NonBlankTrimmed(lines)
    {
      NonBlankTrimmedKeeps(lines, k);
    }
  }

  /** The trimmed form of one line that is not blank is in the list. */
  lemma {:induction false} NonBlankTrimmedKeeps(lines: seq<string>, k: nat)
    requires k < |lines|
    requires TrimSpace(lines[k]) != ""
    ensures TrimSpace(lines[k]) in NonBlankTrimmed(lines)
    decreases |lines|
  {
    var n := |lines| - 1;
    var init := lines[..n];
    var t := TrimSpace(lines[n]);
    var tail := if t == "" then [] else [t];
    assert NonBlankTrimmed(lines) == NonBlankTrimmed(init) + tail;
    if k < n {
      assert init[k] == lines[k];
      NonBlankTrimmedKeeps(init, k);
    } else {
      assert tail == [t];
    }
  }

  // ---------------------------------------------------------------------------
  // Choosing the URL list
  // ---------------------------------------------------------------------------

  /** The scanning loop over the URL file: each line trimmed, the blank ones skipped. */
  method CollectFileUrls(lines: seq<string>) returns (list: seq<string>)
    ensures list == NonBlankTrimmed(lines)
  {
    list := [];
    var i := 0;
    while i < |lines|
      invariant 0 <= i <= |lines|
      invariant list == NonBlankTrimmed(lines[..i])
    {
      var line := TrimSpace(lines[i]);
      NonBlankTrimmedStep(lines, i);
      if line != "" {
        list := list + [line];
      }
      i := i + 1;
    }
    assert lines[..i] == lines;
  }

  /**
   * The URL list of a run. `file` is the content of the URL file, or `None`
   * when it cannot be opened, in which case the program stops (`None` here).
   * Without a URL file, the list is the single URL.
   */
  method LoadUrls(url: string, urlFile: string, file: Option<string>) returns (urls: Option<seq<string>>)
    ensures urlFile == "" ==> urls == Some([url])
    ensures urlFile != "" && file.None? ==> urls == None
    ensures urlFile != "" && file.Some? ==> urls == Some(NonBlankTrimmed(Lines(file.value)))
  {
    if urlFile == "" {
      return Some([url]);
    }
    if file.None? {
      return None;
    }
    var list := CollectFileUrls(Lines(file.value));
    return Some(list);
  }
}
