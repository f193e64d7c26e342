// `clean_text_for_db`: the text normaliser applied to every quote body,
// author name and source name before it is stored.
//
// Unicode NFKC normalisation and `unicodedata.category` come from Python's
// Unicode database, which this model does not reproduce: both are parameters
// (a `UnicodeDb`), and every property below holds whatever they do.

module CleanText {
  import opened PyStr

  /** The Unicode general categories, as `unicodedata.category` names them. */
  datatype GeneralCategory =
    | Lu | Ll | Lt | Lm | Lo | Mn | Mc | Me | Nd | Nl | No
    | Pc | Pd | Ps | Pe | Pi | Pf | Po | Sm | Sc | Sk | So
    | Zs | Zl | Zp | Cc | Cf | Cs | Co | Cn

  /** The two services of Python's `unicodedata` that the cleaner calls. */
  datatype UnicodeDb = UnicodeDb(nfkc: string -> string, category: char -> GeneralCategory)

  const LeftSingleQuote: char := '\U{2018}'
  const RightSingleQuote: char := '\U{2019}'
  const LeftDoubleQuote: char := '\U{201C}'
  const RightDoubleQuote: char := '\U{201D}'
  const Ellipsis: char := '\U{2026}'
  const ZeroWidthSpace: char := '\U{200B}'
  const NoBreakSpace: char := '\U{A0}'

  /** The characters that steps 2 and 3 of the cleaner replace or delete. */
  predicate Folded(c: char)
  {
    c == LeftSingleQuote || c == RightSingleQuote || c == LeftDoubleQuote ||
    c == RightDoubleQuote || c == Ellipsis || c == ZeroWidthSpace || c == NoBreakSpace
  }

  /** Step 2: typographic quotes to ASCII quotes, the ellipsis to three dots,
      in the order the source applies the replacements. */
  function FoldTypography(s: string): (t: string)
    ensures forall c :: c in t ==> c in s || c == '\'' || c == '"' || c == '.'
  {
    var t1 := ReplaceChar(s, LeftSingleQuote, "'");
    var t2 := ReplaceChar(t1, RightSingleQuote, "'");
    var t3 := ReplaceChar(t2, LeftDoubleQuote, "\"");
    var t4 := ReplaceChar(t3, RightDoubleQuote, "\"");
    ReplaceChar(t4, Ellipsis, "...")
  }

  /** Step 3: drop the zero-width space, turn the no-break space into a space. */
  function DropInvisible(s: string): (t: string)
    ensures ZeroWidthSpace !in t && NoBreakSpace !in t
    ensures forall c :: c in t ==> c == ' ' || (c in s && c != ZeroWidthSpace && c != NoBreakSpace)
    ensures forall c :: c in s && c != ZeroWidthSpace && c != NoBreakSpace ==> c in t
  {
    ReplaceChar(ReplaceChar(s, ZeroWidthSpace, ""), NoBreakSpace, " ")
  }

  /** Step 2 works character by character: the fold of a concatenation is
      the concatenation of the folds. */
  lemma FoldTypographyConcat(a: string, b: string)
    ensures FoldTypography(a + b) == FoldTypography(a) + FoldTypography(b)
  {
    var a1 := ReplaceChar(a, LeftSingleQuote, "'");
    var b1 := ReplaceChar(b, LeftSingleQuote, "'");
    ReplaceCharConcat(a, b, LeftSingleQuote, "'");
    var a2 := ReplaceChar(a1, RightSingleQuote, "'");
    var b2 := ReplaceChar(b1, RightSingleQuote, "'");
    ReplaceCharConcat(a1, b1, RightSingleQuote, "'");
    var a3 := ReplaceChar(a2, LeftDoubleQuote, "\"");
    var b3 := ReplaceChar(b2, LeftDoubleQuote, "\"");
    ReplaceCharConcat(a2, b2, LeftDoubleQuote, "\"");
    var a4 := ReplaceChar(a3, RightDoubleQuote, "\"");
    var b4 := ReplaceChar(b3, RightDoubleQuote, "\"");
    ReplaceCharConcat(a3, b3, RightDoubleQuote, "\"");
    ReplaceCharConcat(a4, b4, Ellipsis, "...");
  }

  /** What step 2 turns each character into: both single curly quotes become
      `'`, both double curly quotes `"`, the ellipsis three dots, and any
      other character stays. */
  lemma FoldTypographyOne(x: char)
    ensures FoldTypography([x]) ==
            if x == LeftSingleQuote || x == RightSingleQuote then "'"
            else if x == LeftDoubleQuote || x == RightDoubleQuote then "\""
            else if x == Ellipsis then "..."
            else [x]
  {
    ReplaceCharOne(x, LeftSingleQuote, "'");
    var t1 := ReplaceChar([x], LeftSingleQuote, "'");
    ReplaceCharOne(t1[0], RightSingleQuote, "'");
    var t2 := ReplaceChar(t1, RightSingleQuote, "'");
    ReplaceCharOne(t2[0], LeftDoubleQuote, "\"");
    var t3 := ReplaceChar(t2, LeftDoubleQuote, "\"");
    ReplaceCharOne(t3[0], RightDoubleQuote, "\"");
    var t4 := ReplaceChar(t3, RightDoubleQuote, "\"");
    ReplaceCharOne(t4[0], Ellipsis, "...");
  }

  /** Step 3 works character by character as well. */
  lemma DropInvisibleConcat(a: string, b: string)
    ensures DropInvisible(a + b) == DropInvisible(a) + DropInvisible(b)
  {
    ReplaceCharConcat(a, b, ZeroWidthSpace, "");
    ReplaceCharConcat(ReplaceChar(a, ZeroWidthSpace, ""), ReplaceChar(b, ZeroWidthSpace, ""), NoBreakSpace, " ");
  }

  /** What step 3 turns each character into: the zero-width space is
      deleted, the no-break space becomes a space, any other character stays. */
  lemma DropInvisibleOne(x: char)
    ensures DropInvisible([x]) ==
            if x == ZeroWidthSpace then "" else if x == NoBreakSpace then " " else [x]
  {
    ReplaceCharOne(x, ZeroWidthSpace, "");
    if x == ZeroWidthSpace {
      assert ReplaceChar("", NoBreakSpace, " ") == "";
    } else {
      ReplaceCharOne(x, NoBreakSpace, " ");
    }
  }

  /** After steps 2 and 3 none of the folded characters is left. */
  lemma FoldedGone(s: string)
    ensures forall c :: c in DropInvisible(FoldTypography(s)) ==> !Folded(c)
  {
    var t1 := ReplaceChar(s, LeftSingleQuote, "'");
    var t2 := ReplaceChar(t1, RightSingleQuote, "'");
    var t3 := ReplaceChar(t2, LeftDoubleQuote, "\"");
    var t4 := ReplaceChar(t3, RightDoubleQuote, "\"");
    var t5 := ReplaceChar(t4, Ellipsis, "...");
    assert t5 == FoldTypography(s);
    StaysOut(t1, RightSingleQuote, "'", LeftSingleQuote);
    StaysOut(t2, LeftDoubleQuote, "\"", LeftSingleQuote);
    StaysOut(t2, LeftDoubleQuote, "\"", RightSingleQuote);
    StaysOut(t3, RightDoubleQuote, "\"", LeftSingleQuote);
    StaysOut(t3, RightDoubleQuote, "\"", RightSingleQuote);
    StaysOut(t3, RightDoubleQuote, "\"", LeftDoubleQuote);
    StaysOut(t4, Ellipsis, "...", LeftSingleQuote);
    StaysOut(t4, Ellipsis, "...", RightSingleQuote);
    StaysOut(t4, Ellipsis, "...", LeftDoubleQuote);
    StaysOut(t4, Ellipsis, "...", RightDoubleQuote);
    var u := DropInvisible(t5);
    assert LeftSingleQuote !in u && RightSingleQuote !in u && LeftDoubleQuote !in u &&
           RightDoubleQuote !in u && Ellipsis !in u;
  }

  /** A character absent from the text and from the replacement stays absent. */
  lemma StaysOut(s: string, c: char, r: string, d: char)
    requires d !in s && d !in r
    ensures d !in ReplaceChar(s, c, r)
  {
  }

  /** Categories the filter of step 4 removes: control, format, unassigned,
      private use and surrogate. */
  predicate Unprintable(g: GeneralCategory)
  {
    g.Cc? || g.Cf? || g.Cn? || g.Co? || g.Cs?
  }

  /** Step 4 keeps a character iff it is one of the four standard whitespace
      characters or its category is not one of the unprintable ones. */
  predicate Kept(db: UnicodeDb, c: char)
  {
    c == '\n' || c == '\t' || c == '\r' || c == ' ' || !Unprintable(db.category(c))
  }

  /** Step 4 as a sequence filter. */
  function FilterUnprintable(db: UnicodeDb, s: string): (r: string)
    ensures forall c :: c in r ==> c in s && Kept(db, c)
    ensures forall i :: 0 <= i < |s| && Kept(db, s[i]) ==> s[i] in r
  {
    if |s| == 0 then ""
    else FilterUnprintable(db, s[..|s| - 1]) + (if Kept(db, s[|s| - 1]) then [s[|s| - 1]] else "")
  }

  /** The filter works character by character and keeps the order: filtering
      a concatenation is concatenating the filtered parts. */
  lemma {:induction false} FilterConcat(db: UnicodeDb, a: string, b: string)
    ensures FilterUnprintable(db, a + b) == FilterUnprintable(db, a) + FilterUnprintable(db, b)
    decreases |b|
  {
    if |b| > 0 {
      var b' := b[..|b| - 1];
      assert (a + b)[..|a + b| - 1] == a + b';
      FilterConcat(db, a, b');
    } else {
      assert a + b == a;
    }
  }

  /** A string whose characters are all kept passes the filter unchanged. */
  lemma {:induction false} FilterAllKept(db: UnicodeDb, s: string)
    requires forall c :: c in s ==> Kept(db, c)
    ensures FilterUnprintable(db, s) == s
  {
    if |s| > 0 {
      var init := s[..|s| - 1];
      var last := s[|s| - 1];
      assert FilterUnprintable(db, init) == init by {
        assert forall i :: 0 <= i < |init| ==> init[i] == s[i];
        FilterAllKept(db, init);
      }
      assert Kept(db, last) by {
        assert last in s;
      }
      assert FilterUnprintable(db, s) == FilterUnprintable(db, init) + [last] by {
        FilterSnoc(db, s);
      }
      assert s == init + [last];
    }
  }

  lemma FilterSnoc(db: UnicodeDb, s: string)
    requires |s| > 0
    ensures FilterUnprintable(db, s) ==
            FilterUnprintable(db, s[..|s| - 1]) + (if Kept(db, s[|s| - 1]) then [s[|s| - 1]] else "")
  {
  }

  /** The loop of step 4, appending each kept character to `cleaned_chars`. */
  method FilterUnprintableChars(db: UnicodeDb, text: string) returns (filtered: string)
    ensures filtered == FilterUnprintable(db, text)
  {
    var cleanedChars: string := [];
    for i := 0 to |text|
      invariant cleanedChars == FilterUnprintable(db, text[..i])
    {
      var c := text[i];
      assert text[..i + 1][..i] == text[..i];
      if c == '\n' || c == '\t' || c == '\r' || c == ' ' || !Unprintable(db.category(c)) {
        cleanedChars := cleanedChars + [c];
      }
    }
    assert text[..|text|] == text;
    filtered := cleanedChars;
  }

  /** `[line.strip() for line in lines]` */
  function StripEach(lines: seq<string>): (r: seq<string>)
    ensures |r| == |lines|
    ensures forall i :: 0 <= i < |r| ==> r[i] == Strip(lines[i])
  {
    seq(|lines|, i requires 0 <= i < |lines| => Strip(lines[i]))
  }

  /** Stripping never brings in a character that was not there. */
  lemma StripEachKeepsOut(lines: seq<string>, c: char)
    requires forall i :: 0 <= i < |lines| ==> c !in lines[i]
    ensures forall i :: 0 <= i < |lines| ==> c !in StripEach(lines)[i]
  {
    forall i | 0 <= i < |lines| ensures c !in StripEach(lines)[i] {
      if c in StripEach(lines)[i] {
        StripChars(lines[i], c);
      }
    }
  }

  /** Step 5: strip every line. No line is dropped: the lines of the result
      are the input's lines, each stripped, so a blank interior line
      survives as an empty line. */
  function StripLines(s: string): (r: string)
    ensures Split(r, '\n') == StripEach(Split(s, '\n'))
    ensures LinesTrimmed(r)
  {
    var lines := StripEach(Split(s, '\n'));
    StripEachKeepsOut(Split(s, '\n'), '\n');
    SplitJoin(lines, '\n');
    Join(lines, '\n')
  }

  /** `clean_text_for_db` on a `str` argument. The result has no whitespace
      at either end, and none at either end of any of its lines. */
  function Clean(db: UnicodeDb, text: string): (r: string)
    ensures Trimmed(r)
    ensures LinesTrimmed(r)
  {
    var f := FilterUnprintable(db, DropInvisible(FoldTypography(db.nfkc(text))));
    StripEachKeepsOut(Split(f, '\n'), '\n');
    StripJoinedTrimmed(StripEach(Split(f, '\n')));
    Strip(StripLines(f))
  }

  /** The cleaner as the source runs it, with the filter as a loop. */
  method CleanTextForDb(db: UnicodeDb, text: string) returns (cleaned: string)
    ensures cleaned == Clean(db, text)
  {
    var t := db.nfkc(text);
    t := ReplaceChar(t, LeftSingleQuote, "'");
    t := ReplaceChar(t, RightSingleQuote, "'");
    t := ReplaceChar(t, LeftDoubleQuote, "\"");
    t := ReplaceChar(t, RightDoubleQuote, "\"");
    t := ReplaceChar(t, Ellipsis, "...");
    t := ReplaceChar(t, ZeroWidthSpace, "");
    t := ReplaceChar(t, NoBreakSpace, " ");
    var filtered := FilterUnprintableChars(db, t);
    var lines := Split(filtered, '\n');
    var strippedLines := StripEach(lines);
    var finalText := Join(strippedLines, '\n');
    cleaned := Strip(finalText);
  }

  /** Every `\n`-separated line of `s` has no whitespace at either end. */
  predicate LinesTrimmed(s: string)
  {
    forall line :: line in Split(s, '\n') ==> Trimmed(line)
  }

  lemma {:induction false} SplitChars(s: string, c: char, i: nat, d: char)
    requires i < |Split(s, c)| && d in Split(s, c)[i]
    ensures d in s
    decreases |s|
  {
    if c in s {
      var k := IndexOf(s, c);
      if i > 0 {
        SplitChars(s[k + 1..], c, i - 1, d);
      }
    }
  }

  lemma StripSpacePrefix(c: char, s: string)
    requires IsSpace(c)
    ensures Strip([c] + s) == Strip(s)
  {
    assert ([c] + s)[1..] == s;
    assert LeadingSpaces([c] + s) == 1 + LeadingSpaces(s);
    assert ([c] + s)[LeadingSpaces([c] + s)..] == s[LeadingSpaces(s)..];
  }

  lemma {:induction false} LeadingSpacesSnoc(s: string, c: char)
    requires IsSpace(c)
    ensures LeadingSpaces(s + [c]) == if LeadingSpaces(s) == |s| then |s| + 1 else LeadingSpaces(s)
  {
    if |s| > 0 && IsSpace(s[0]) {
      assert (s + [c])[1..] == s[1..] + [c];
      LeadingSpacesSnoc(s[1..], c);
    }
  }

  lemma StripSpaceSuffix(s: string, c: char)
    requires IsSpace(c)
    ensures Strip(s + [c]) == Strip(s)
  {
    LeadingSpacesSnoc(s, c);
    var n := LeadingSpaces(s);
    if n < |s| {
      var t := s[n..];
      assert (s + [c])[n..] == t + [c];
      assert (t + [c])[..|t + [c]| - 1] == t;
    }
  }

  lemma {:induction false} JoinSnoc(lines: seq<string>, c: char)
    requires |lines| >= 2
    ensures Join(lines, c) == Join(lines[..|lines| - 1], c) + [c] + lines[|lines| - 1]
    decreases |lines|
  {
    var n := |lines|;
    var init := lines[..n - 1];
    if n == 2 {
      assert Join(lines[1..], c) == lines[1];
      assert Join(init, c) == lines[0];
    } else {
      JoinSnoc(lines[1..], c);
      assert lines[1..][..n - 2] == init[1..];
      calc {
        Join(lines, c);
        lines[0] + [c] + Join(lines[1..], c);
        lines[0] + [c] + (Join(init[1..], c) + [c] + lines[n - 1]);
        (lines[0] + [c] + Join(init[1..], c)) + [c] + lines[n - 1];
        Join(init, c) + [c] + lines[n - 1];
      }
    }
  }

  /** A leading empty line is a leading newline, which `strip()` removes. */
  lemma StripDropsFirstEmpty(lines: seq<string>)
    requires |lines| >= 2 && lines[0] == ""
    ensures Strip(Join(lines, '\n')) == Strip(Join(lines[1..], '\n'))
  {
    assert Join(lines, '\n') == ['\n'] + Join(lines[1..], '\n');
    StripSpacePrefix('\n', Join(lines[1..], '\n'));
  }

  /** A trailing empty line is a trailing newline, which `strip()` removes. */
  lemma StripDropsLastEmpty(lines: seq<string>)
    requires |lines| >= 2 && lines[|lines| - 1] == ""
    ensures Strip(Join(lines, '\n')) == Strip(Join(lines[..|lines| - 1], '\n'))
  {
    JoinSnoc(lines, '\n');
    assert Join(lines, '\n') == Join(lines[..|lines| - 1], '\n') + ['\n'];
    StripSpaceSuffix(Join(lines[..|lines| - 1], '\n'), '\n');
  }

  /** With non-empty trimmed lines at both ends the join is already stripped. */
  lemma StripKeepsJoin(lines: seq<string>)
    requires |lines| >= 2 && lines[0] != "" && lines[|lines| - 1] != ""
    requires forall i :: 0 <= i < |lines| ==> Trimmed(lines[i]) && '\n' !in lines[i]
    ensures Strip(Join(lines, '\n')) == Join(lines, '\n')
    ensures Split(Join(lines, '\n'), '\n') == lines
  {
    var j := Join(lines, '\n');
    JoinEnds(lines, '\n');
    StripOfTrimmed(j);
    SplitJoin(lines, '\n');
  }

  /** A join starts with the first piece and ends with the last one. */
  lemma JoinEnds(lines: seq<string>, c: char)
    requires |lines| >= 2 && lines[0] != "" && lines[|lines| - 1] != ""
    ensures var j := Join(lines, c);
            |j| > 0 && j[0] == lines[0][0] && j[|j| - 1] == lines[|lines| - 1][|lines[|lines| - 1]| - 1]
  {
    var j := Join(lines, c);
    var last := lines[|lines| - 1];
    assert j == lines[0] + ([c] + Join(lines[1..], c));
    var front := Join(lines[..|lines| - 1], c) + [c];
    assert j == front + last by {
      JoinSnoc(lines, c);
    }
    assert j[|front| + |last| - 1] == last[|last| - 1];
  }

  /** Every line before index `a` and from index `b` on is empty. */
  predicate EmptyOutside(lines: seq<string>, a: nat, b: nat)
  {
    (forall t :: 0 <= t < a && t < |lines| ==> lines[t] == "") &&
    (forall t :: b <= t < |lines| ==> lines[t] == "")
  }

  lemma RunAfterEmpty(lines: seq<string>, a: nat, b: nat)
    requires 1 <= |lines| && lines[0] == "" && a <= b <= |lines| - 1
    requires EmptyOutside(lines[1..], a, b)
    ensures EmptyOutside(lines, a + 1, b + 1)
    ensures lines[1..][a..b] == lines[a + 1..b + 1]
  {
    assert forall t :: 0 < t < |lines| ==> lines[t] == lines[1..][t - 1];
  }

  lemma RunBeforeEmpty(lines: seq<string>, a: nat, b: nat)
    requires 1 <= |lines| && lines[|lines| - 1] == "" && a <= b <= |lines| - 1
    requires EmptyOutside(lines[..|lines| - 1], a, b)
    ensures EmptyOutside(lines, a, b)
    ensures lines[..|lines| - 1][a..b] == lines[a..b]
  {
    assert forall t :: 0 <= t < |lines| - 1 ==> lines[t] == lines[..|lines| - 1][t];
  }

  /** After the final `strip()` the lines are `lines[a..b]`, and every line
      outside that run is empty. */
  predicate KeptRun(lines: seq<string>, a: nat, b: nat)
  {
    a < b <= |lines| && EmptyOutside(lines, a, b) &&
    Split(Strip(Join(lines, '\n')), '\n') == lines[a..b]
  }

  /** The final `strip()` over a join of stripped lines only removes whole
      empty lines at either end: what is left splits into a contiguous run
      of the lines, and every line outside that run is empty. */
  lemma StripJoinedRun(lines: seq<string>)
    requires |lines| >= 1
    requires forall i :: 0 <= i < |lines| ==> Trimmed(lines[i]) && '\n' !in lines[i]
    ensures exists a: nat, b: nat :: KeptRun(lines, a, b)
  {
    var a, b := KeptRunOf(lines);
  }

  /** The bounds of the kept run, found by peeling empty lines off the ends. */
  lemma {:induction false} KeptRunOf(lines: seq<string>) returns (a: nat, b: nat)
    requires |lines| >= 1
    requires forall i :: 0 <= i < |lines| ==> Trimmed(lines[i]) && '\n' !in lines[i]
    ensures KeptRun(lines, a, b)
    decreases |lines|, 1
  {
    var n := |lines|;
    if n == 1 {
      a, b := 0, 1;
      RunOfOne(lines);
    } else if lines[0] == "" {
      a, b := RunWithoutFirst(lines);
    } else if lines[n - 1] == "" {
      a, b := RunWithoutLast(lines);
    } else {
      a, b := 0, n;
      RunOfAll(lines);
    }
  }

  /** A leading empty line is dropped from the kept run. */
  lemma {:induction false} RunWithoutFirst(lines: seq<string>) returns (a: nat, b: nat)
    requires |lines| >= 2 && lines[0] == ""
    requires forall i :: 0 <= i < |lines| ==> Trimmed(lines[i]) && '\n' !in lines[i]
    ensures KeptRun(lines, a, b)
    decreases |lines|, 0
  {
    var tail := lines[1..];
    assert forall i :: 0 <= i < |tail| ==> Trimmed(tail[i]) && '\n' !in tail[i] by {
      assert forall i :: 0 <= i < |tail| ==> tail[i] == lines[i + 1];
    }
    var a', b' := KeptRunOf(tail);
    a, b := a' + 1, b' + 1;
    RunAfterEmpty(lines, a', b');
    var kept := Split(Strip(Join(tail, '\n')), '\n');
    assert kept == lines[a..b];
    assert Split(Strip(Join(lines, '\n')), '\n') == kept by {
      StripDropsFirstEmpty(lines);
    }
  }

  /** A trailing empty line is dropped from the kept run. */
  lemma {:induction false} RunWithoutLast(lines: seq<string>) returns (a: nat, b: nat)
    requires |lines| >= 2 && lines[|lines| - 1] == ""
    requires forall i :: 0 <= i < |lines| ==> Trimmed(lines[i]) && '\n' !in lines[i]
    ensures KeptRun(lines, a, b)
    decreases |lines|, 0
  {
    var init := lines[..|lines| - 1];
    assert forall i :: 0 <= i < |init| ==> Trimmed(init[i]) && '\n' !in init[i] by {
      assert forall i :: 0 <= i < |init| ==> init[i] == lines[i];
    }
    a, b := KeptRunOf(init);
    RunBeforeEmpty(lines, a, b);
    var kept := Split(Strip(Join(init, '\n')), '\n');
    assert kept == lines[a..b];
    assert Split(Strip(Join(lines, '\n')), '\n') == kept by {
      StripDropsLastEmpty(lines);
    }
  }

  /** A single stripped line is kept whole. */
  lemma RunOfOne(lines: seq<string>)
    requires |lines| == 1 && Trimmed(lines[0]) && '\n' !in lines[0]
    ensures KeptRun(lines, 0, 1)
  {
    assert Join(lines, '\n') == lines[0];
    StripOfTrimmed(lines[0]);
    assert Split(lines[0], '\n') == [lines[0]];
    assert lines[0..1] == lines;
  }

  /** With non-empty lines at both ends, every line is kept. */
  lemma RunOfAll(lines: seq<string>)
    requires |lines| >= 2 && lines[0] != "" && lines[|lines| - 1] != ""
    requires forall i :: 0 <= i < |lines| ==> Trimmed(lines[i]) && '\n' !in lines[i]
    ensures KeptRun(lines, 0, |lines|)
  {
    var kept := Split(Strip(Join(lines, '\n')), '\n');
    assert kept == lines by {
      StripKeepsJoin(lines);
    }
    assert lines[0..|lines|] == lines;
    assert EmptyOutside(lines, 0, |lines|);
  }

  lemma TrimmedRun(lines: seq<string>, a: nat, b: nat)
    requires a <= b <= |lines|
    requires forall i :: 0 <= i < |lines| ==> Trimmed(lines[i])
    ensures forall line :: line in lines[a..b] ==> Trimmed(line)
  {
    assert forall t :: 0 <= t < b - a ==> lines[a..b][t] == lines[a + t];
  }

  /** Stripping a join of stripped lines leaves every line stripped. */
  lemma StripJoinedTrimmed(lines: seq<string>)
    requires |lines| >= 1
    requires forall i :: 0 <= i < |lines| ==> Trimmed(lines[i]) && '\n' !in lines[i]
    ensures LinesTrimmed(Strip(Join(lines, '\n')))
  {
    StripJoinedRun(lines);
    var a: nat, b: nat :| KeptRun(lines, a, b);
    TrimmedRun(lines, a, b);
  }

  /** The lines of the output are a contiguous run of the stripped lines of
      step 5: only empty lines at the very start and end are dropped, and
      blank interior lines survive. */
  lemma CleanLines(db: UnicodeDb, text: string)
    ensures exists a: nat, b: nat ::
              var lines := StripEach(Split(FilterUnprintable(db, DropInvisible(FoldTypography(db.nfkc(text)))), '\n'));
              KeptRun(lines, a, b) && Split(Clean(db, text), '\n') == lines[a..b]
  {
    var f := FilterUnprintable(db, DropInvisible(FoldTypography(db.nfkc(text))));
    var lines := StripEach(Split(f, '\n'));
    StripEachKeepsOut(Split(f, '\n'), '\n');
    StripJoinedRun(lines);
    var a: nat, b: nat :| KeptRun(lines, a, b);
    assert Clean(db, text) == Strip(Join(lines, '\n'));
    assert Split(Clean(db, text), '\n') == lines[a..b];
  }

  /** Every character of the output is a newline or a character that passed
      the filter of step 4. */
  lemma CleanChars(db: UnicodeDb, text: string, c: char)
    requires c in Clean(db, text)
    ensures c == '\n' || c in FilterUnprintable(db, DropInvisible(FoldTypography(db.nfkc(text))))
  {
    var f := FilterUnprintable(db, DropInvisible(FoldTypography(db.nfkc(text))));
    var lines := StripEach(Split(f, '\n'));
    StripChars(Join(lines, '\n'), c);
    if c != '\n' {
      JoinChars(lines, '\n', c);
      var i :| 0 <= i < |lines| && c in lines[i];
      StripChars(Split(f, '\n')[i], c);
      SplitChars(f, '\n', i, c);
    }
  }

  /** No typographic quote, ellipsis, zero-width space or no-break space
      survives the cleaner, and every character left passes the filter. */
  lemma CleanOmitsFolded(db: UnicodeDb, text: string)
    ensures forall c :: c in Clean(db, text) ==> !Folded(c) && Kept(db, c)
  {
    forall c | c in Clean(db, text) ensures !Folded(c) && Kept(db, c) {
      CleanChars(db, text, c);
      FoldedGone(db.nfkc(text));
    }
  }

  /** A string that NFKC leaves alone, with no folded or filtered character
      and no whitespace at the ends of it or of its lines, is cleaned to
      itself. */
  lemma CleanFixedPoint(db: UnicodeDb, x: string)
    requires db.nfkc(x) == x
    requires forall c :: c in x ==> !Folded(c) && Kept(db, c)
    requires Trimmed(x) && LinesTrimmed(x)
    ensures Clean(db, x) == x
  {
    ReplaceAbsent(x, LeftSingleQuote, "'");
    ReplaceAbsent(x, RightSingleQuote, "'");
    ReplaceAbsent(x, LeftDoubleQuote, "\"");
    ReplaceAbsent(x, RightDoubleQuote, "\"");
    ReplaceAbsent(x, Ellipsis, "...");
    assert FoldTypography(x) == x;
    ReplaceAbsent(x, ZeroWidthSpace, "");
    ReplaceAbsent(x, NoBreakSpace, " ");
    assert DropInvisible(x) == x;
    FilterAllKept(db, x);
    var lines := Split(x, '\n');
    forall i | 0 <= i < |lines| ensures StripEach(lines)[i] == lines[i] {
      assert lines[i] in lines;
      StripOfTrimmed(lines[i]);
    }
    assert StripEach(lines) == lines;
    JoinSplit(x, '\n');
    assert StripLines(x) == x;
    StripOfTrimmed(x);
  }

  /** The steps after NFKC are idempotent: cleaning the output again changes
      nothing whenever NFKC leaves that output as it is. */
  lemma CleanIdempotentWhenNfkcStable(db: UnicodeDb, text: string)
    requires db.nfkc(Clean(db, text)) == Clean(db, text)
    ensures Clean(db, Clean(db, text)) == Clean(db, text)
  {
    CleanOmitsFolded(db, text);
    CleanFixedPoint(db, Clean(db, text));
  }
}
