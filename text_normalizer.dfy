/** Field extraction from the text of one letter (text_normalizer.py). The regular
    expressions are parameters (`Matchers`); the whitespace normalisation, the line
    handling and the control flow around the matches are modelled. */
module TextNormalizer {
  import opened Opt
  import opened Text
  import opened Seqs
  import opened Models

  /** The regular-expression searches, each giving the group the code reads, before any
      `strip()`. */
  datatype Matchers = Matchers(
    removeStamps: string -> string,            // placeholder and signature-block substitutions
    header: string -> Option<string>,          // HEADER_RE, group 1
    addresseeLine: string -> bool,             // ADDRESSEE_RE.match on one line
    subject: string -> Option<string>,         // SUBJECT_RE, group 0
    regNumber: string -> Option<string>,       // REG_NUMBER_RE, group 1
    attachments: string -> seq<string>,        // ATTACHMENT_RE.findall
    deadlineDue: string -> Option<string>,     // DEADLINE_RE ("в срок до"), group 1
    deadlinePlease: string -> Option<string>,  // DEADLINE_PLEASE_RE ("просим … до"), group 1
    signatory: string -> Option<string>,       // SIGNATORY_RE, group 2
    contacts: string -> seq<string>,           // CONTACTS_RE.findall, second group
    stopLine: string -> bool,                  // the stop pattern of the issuer scan, at the line start
    aiWord: string -> bool                     // the word "ии" searched in lowered text
  )

  // ---------------------------------------------------------------------------------
  // Whitespace

  /** `s.replace("\r\n", "\n")`, scanning left to right. */
  function ReplaceCrlf(s: string): (r: string)
    ensures |r| <= |s|
    decreases |s|
  {
    if s == [] then []
    else if |s| >= 2 && s[0] == '\r' && s[1] == '\n' then "\n" + ReplaceCrlf(s[2..])
    else [s[0]] + ReplaceCrlf(s[1..])
  }

  /** Text without a carriage return comes through unchanged; every carriage return in
      the output was one of the input's. */
  lemma {:induction false} ReplaceCrlfSpec(s: string)
    ensures '\r' !in s ==> ReplaceCrlf(s) == s
    ensures '\r' in ReplaceCrlf(s) ==> '\r' in s
    decreases |s|
  {
    if s != [] {
      if |s| >= 2 && s[0] == '\r' && s[1] == '\n' {
        ReplaceCrlfSpec(s[2..]);
        assert forall c :: c in s[2..] ==> c in s;
      } else {
        ReplaceCrlfSpec(s[1..]);
        assert forall c :: c in s[1..] ==> c in s;
        assert s == [s[0]] + s[1..];
      }
    }
  }

  predicate IsNewline(c: char) {
    c == '\n'
  }

  /** The characters of the class `[ \t]`. */
  predicate IsBlank(c: char) {
    c == ' ' || c == '\t'
  }

  /** `re.sub(r"\n{2,}", "\n\n", s)` */
  function CollapseNewlines(s: string): (r: string)
    ensures r == [] <==> s == []
    ensures r != [] ==> (r[0] == '\n' <==> s[0] == '\n')
    decreases |s|
  {
    if s == [] then []
    else if s[0] == '\n' then
      var n := RunLength(s, IsNewline);
      (if n >= 2 then "\n\n" else "\n") + CollapseNewlines(s[n..])
    else [s[0]] + CollapseNewlines(s[1..])
  }

  /** `re.sub(r"[ \t]{2,}", " ", s)` */
  function CollapseBlanks(s: string): (r: string)
    ensures r == [] <==> s == []
    ensures r != [] ==> (r[0] == '\n' <==> s[0] == '\n') && (IsBlank(r[0]) <==> IsBlank(s[0]))
    ensures |r| >= 2 && r[0] == '\n' && r[1] == '\n' ==> |s| >= 2 && s[0] == '\n' && s[1] == '\n'
    decreases |s|
  {
    if s == [] then []
    else if IsBlank(s[0]) then
      var n := RunLength(s, IsBlank);
      (if n >= 2 then " " else [s[0]]) + CollapseBlanks(s[n..])
    else [s[0]] + CollapseBlanks(s[1..])
  }

  /** No three newlines in a row. */
  predicate NoTripleNewline(s: string) {
    forall i :: 0 <= i < |s| - 2 ==> !(s[i] == '\n' && s[i + 1] == '\n' && s[i + 2] == '\n')
  }

  /** No two spaces or tabs in a row. */
  predicate NoDoubleBlank(s: string) {
    forall i :: 0 <= i < |s| - 1 ==> !(IsBlank(s[i]) && IsBlank(s[i + 1]))
  }

  /** One character in front of a string keeps it free of triple newlines unless it
      starts a new run of three. */
  lemma ConsNoTriple(c: char, rest: string)
    requires NoTripleNewline(rest)
    requires !(c == '\n' && |rest| >= 2 && rest[0] == '\n' && rest[1] == '\n')
    ensures NoTripleNewline([c] + rest)
  {
    var r := [c] + rest;
    forall i | 1 <= i < |r| - 2 ensures !(r[i] == '\n' && r[i + 1] == '\n' && r[i + 2] == '\n') {
      assert r[i] == rest[i - 1] && r[i + 1] == rest[i] && r[i + 2] == rest[i + 1];
    }
  }

  /** One character in front of a string keeps it free of double blanks unless both are
      blanks. */
  lemma ConsNoDoubleBlank(c: char, rest: string)
    requires NoDoubleBlank(rest)
    requires !(IsBlank(c) && rest != [] && IsBlank(rest[0]))
    ensures NoDoubleBlank([c] + rest)
  {
    var r := [c] + rest;
    forall i | 1 <= i < |r| - 1 ensures !(IsBlank(r[i]) && IsBlank(r[i + 1])) {
      assert r[i] == rest[i - 1] && r[i + 1] == rest[i];
    }
  }

  lemma SuffixNoTriple(s: string, n: nat)
    requires n <= |s| && NoTripleNewline(s)
    ensures NoTripleNewline(s[n..])
  {
    forall i | 0 <= i < |s[n..]| - 2 ensures !(s[n..][i] == '\n' && s[n..][i + 1] == '\n' && s[n..][i + 2] == '\n') {
      assert s[n..][i] == s[n + i] && s[n..][i + 1] == s[n + i + 1] && s[n..][i + 2] == s[n + i + 2];
    }
  }

  /** A newline run collapsed to one or two newlines, in front of text that does not
      start with a newline. */
  lemma NewlineHeadNoTriple(twice: bool, rest: string)
    requires NoTripleNewline(rest) && (rest == [] || rest[0] != '\n')
    ensures NoTripleNewline((if twice then "\n\n" else "\n") + rest)
  {
    ConsNoTriple('\n', rest);
    if twice {
      ConsNoTriple('\n', ['\n'] + rest);
      assert "\n\n" + rest == ['\n'] + (['\n'] + rest);
    } else {
      assert "\n" + rest == ['\n'] + rest;
    }
  }

  /** After collapsing, no three newlines follow each other. */
  lemma {:induction false} CollapseNewlinesShape(s: string)
    ensures NoTripleNewline(CollapseNewlines(s))
    decreases |s|
  {
    if s != [] && s[0] == '\n' {
      var n := RunLength(s, IsNewline);
      CollapseNewlinesShape(s[n..]);
      NewlineHeadNoTriple(n >= 2, CollapseNewlines(s[n..]));
    } else if s != [] {
      CollapseNewlinesShape(s[1..]);
      ConsNoTriple(s[0], CollapseNewlines(s[1..]));
    }
  }

  /** After collapsing, no two spaces or tabs follow each other. */
  lemma {:induction false} CollapseBlanksShape(s: string)
    ensures NoDoubleBlank(CollapseBlanks(s))
    decreases |s|
  {
    if s != [] && IsBlank(s[0]) {
      var n := RunLength(s, IsBlank);
      var rest := CollapseBlanks(s[n..]);
      CollapseBlanksShape(s[n..]);
      assert rest == [] || !IsBlank(rest[0]);
      ConsNoDoubleBlank(if n >= 2 then ' ' else s[0], rest);
      assert CollapseBlanks(s) == [if n >= 2 then ' ' else s[0]] + rest;
    } else if s != [] {
      CollapseBlanksShape(s[1..]);
      ConsNoDoubleBlank(s[0], CollapseBlanks(s[1..]));
    }
  }

  /** Collapsing spaces and tabs never joins newlines into a run of three. */
  lemma {:induction false} CollapseBlanksKeepsNewlines(s: string)
    requires NoTripleNewline(s)
    ensures NoTripleNewline(CollapseBlanks(s))
    decreases |s|
  {
    if s != [] && IsBlank(s[0]) {
      var n := RunLength(s, IsBlank);
      SuffixNoTriple(s, n);
      CollapseBlanksKeepsNewlines(s[n..]);
      ConsNoTriple(if n >= 2 then ' ' else s[0], CollapseBlanks(s[n..]));
      assert CollapseBlanks(s) == [if n >= 2 then ' ' else s[0]] + CollapseBlanks(s[n..]);
    } else if s != [] {
      var rest := CollapseBlanks(s[1..]);
      SuffixNoTriple(s, 1);
      CollapseBlanksKeepsNewlines(s[1..]);
      assert |rest| >= 2 && rest[0] == '\n' && rest[1] == '\n' ==> s[1] == '\n' && s[2] == '\n';
      ConsNoTriple(s[0], rest);
    }
  }

  /** `_normalize_whitespace` */
  function NormalizeWhitespace(s: string): string {
    CollapseBlanks(CollapseNewlines(ReplaceCrlf(s)))
  }

  /** Normalised text has no run of three newlines and no two adjacent spaces or tabs. */
  lemma NormalizeWhitespaceShape(s: string)
    ensures NoTripleNewline(NormalizeWhitespace(s))
    ensures NoDoubleBlank(NormalizeWhitespace(s))
  {
    CollapseNewlinesShape(ReplaceCrlf(s));
    CollapseBlanksKeepsNewlines(CollapseNewlines(ReplaceCrlf(s)));
    CollapseBlanksShape(CollapseNewlines(ReplaceCrlf(s)));
  }

  /** `_hard_cleanup`: the stamp substitutions, then whitespace normalisation and strip. */
  function HardCleanup(m: Matchers, text: string): string {
    Strip(NormalizeWhitespace(m.removeStamps(text)))
  }

  /** A prefix of a suffix keeps both properties. */
  lemma InfixShape(s: string, t: string, r: string)
    requires |t| <= |s| && t == s[|s| - |t|..] && |r| <= |t| && r == t[..|r|]
    ensures NoTripleNewline(s) ==> NoTripleNewline(r)
    ensures NoDoubleBlank(s) ==> NoDoubleBlank(r)
  {
    var a := |s| - |t|;
    assert forall i :: 0 <= i < |r| ==> r[i] == s[a + i];
  }

  /** Stripping keeps both properties. */
  lemma StripShape(s: string)
    ensures NoTripleNewline(s) ==> NoTripleNewline(Strip(s))
    ensures NoDoubleBlank(s) ==> NoDoubleBlank(Strip(s))
  {
    StripInfix(s);
    InfixShape(s, TrimStart(s), Strip(s));
  }

  /** The cleaned text keeps the normalised shape and has no whitespace at either end. */
  lemma HardCleanupShape(m: Matchers, text: string)
    ensures NoTripleNewline(HardCleanup(m, text)) && NoDoubleBlank(HardCleanup(m, text))
    ensures HardCleanup(m, text) == [] || (NotSpace(HardCleanup(m, text)[0]) && NotSpace(HardCleanup(m, text)[|HardCleanup(m, text)| - 1]))
  {
    NormalizeWhitespaceShape(m.removeStamps(text));
    StripShape(NormalizeWhitespace(m.removeStamps(text)));
  }

  // ---------------------------------------------------------------------------------
  // Lines

  /** `[line.strip() for line in lines]` */
  function StripAll(lines: seq<string>): (r: seq<string>)
    ensures |r| == |lines|
    ensures forall i :: 0 <= i < |lines| ==> r[i] == Strip(lines[i])
  {
    if lines == [] then [] else StripAll(lines[..|lines| - 1]) + [Strip(lines[|lines| - 1])]
  }

  /** `[line.strip() for line in lines if line.strip()]` */
  function StrippedLines(lines: seq<string>): seq<string> {
    Filter(StripAll(lines), NonEmpty)
  }

  /** `sep.join(parts)` starts with the first part. */
  lemma {:induction false} JoinStart(sep: string, parts: seq<string>)
    requires parts != [] && parts[0] != []
    ensures Join(sep, parts) != [] && Join(sep, parts)[0] == parts[0][0]
  {
    if |parts| > 1 {
      JoinStart(sep, parts[..|parts| - 1]);
    }
  }

  // ---------------------------------------------------------------------------------
  // Issuer

  /** The quote flag after collecting one line: set by «, then cleared by ». */
  function QuoteAfter(line: string, open: bool): bool {
    if '»' in line then false else if '«' in line then true else open
  }

  /** The quote flag after collecting `lines` from a closed state. */
  function QuoteState(lines: seq<string>): bool {
    if lines == [] then false else QuoteAfter(lines[|lines| - 1], QuoteState(lines[..|lines| - 1]))
  }

  /** Where the first pass stops when it reaches index `j` with flag `open`: at the first
      stop line met with no quote open, else at the end. */
  function FirstPassEnd(lines: seq<string>, stop: string -> bool, j: nat, open: bool): (k: nat)
    requires j <= |lines|
    ensures j <= k <= |lines|
    decreases |lines| - j
  {
    if j == |lines| || (stop(lines[j]) && !open) then j
    else FirstPassEnd(lines, stop, j + 1, QuoteAfter(lines[j], open))
  }

  /** Where the second pass stops from index `j`: at the first stop line or line that is
      not upper-case. */
  function SecondPassEnd(lines: seq<string>, stop: string -> bool, j: nat): (k: nat)
    requires j <= |lines|
    ensures j <= k <= |lines|
    decreases |lines| - j
  {
    if j == |lines| || stop(lines[j]) || !IsUpperLine(lines[j]) then j
    else SecondPassEnd(lines, stop, j + 1)
  }

  /** `line.isupper()`: some capital letter and no small one. */
  predicate IsUpperLine(line: string) {
    (exists i :: 0 <= i < |line| && IsUpperChar(line[i])) && forall i :: 0 <= i < |line| ==> !IsLowerChar(line[i])
  }

  function WordCount(s: string): nat {
    if s != [] then |Words(s)| else 0
  }

  function Joined(lines: seq<string>): string {
    Strip(Join(" ", lines))
  }

  /** What `_extract_issuer` returns. */
  function IssuerOf(stop: string -> bool, headerRaw: Option<string>): Option<string> {
    if !Truthy(headerRaw) then None
    else
      var lines := StrippedLines(SplitLines(headerRaw.value));
      if lines == [] then None
      else
        var k := FirstPassEnd(lines, stop, 0, false);
        var n := if WordCount(Joined(lines[..k])) <= 4 then SecondPassEnd(lines, stop, k) else k;
        if Joined(lines[..n]) != [] then Some(Joined(lines[..n])) else None
  }

  /** The first loop of `_extract_issuer`: lines are collected until a stop line met
      outside a «…» quote. */
  method CollectIssuerLines(lines: seq<string>, stop: string -> bool) returns (collected: seq<string>)
    ensures collected == lines[..FirstPassEnd(lines, stop, 0, false)]
  {
    collected := [];
    var openedQuote := false;
    var i := 0;
    while i < |lines|
      invariant i <= |lines| && collected == lines[..i]
      invariant FirstPassEnd(lines, stop, i, openedQuote) == FirstPassEnd(lines, stop, 0, false)
    {
      var line := lines[i];
      if stop(line) && !openedQuote {
        break;
      }
      collected := collected + [line];
      if '«' in line {
        openedQuote := true;
      }
      if '»' in line {
        openedQuote := false;
      }
      assert lines[..i + 1] == lines[..i] + [line];
      i := i + 1;
    }
  }

  /** The second loop of `_extract_issuer`: from index `k`, upper-case lines are appended
      until a stop line or a line that is not upper-case. */
  method AppendUpperLines(lines: seq<string>, stop: string -> bool, k: nat) returns (collected: seq<string>)
    requires k <= |lines|
    ensures collected == lines[..SecondPassEnd(lines, stop, k)]
  {
    collected := lines[..k];
    var j := k;
    while j < |lines|
      invariant k <= j <= |lines| && collected == lines[..j]
      invariant SecondPassEnd(lines, stop, j) == SecondPassEnd(lines, stop, k)
    {
      var line := lines[j];
      if stop(line) {
        break;
      }
      if IsUpperLine(line) {
        collected := collected + [line];
      } else {
        break;
      }
      assert lines[..j + 1] == lines[..j] + [line];
      j := j + 1;
    }
  }

  /** `_extract_issuer` */
  method ExtractIssuer(stop: string -> bool, headerRaw: Option<string>) returns (r: Option<string>)
    ensures r == IssuerOf(stop, headerRaw)
  {
    if !Truthy(headerRaw) {
      return None;
    }
    var lines := StrippedLines(SplitLines(headerRaw.value));
    if lines == [] {
      return None;
    }
    var collected := CollectIssuerLines(lines, stop);
    var issuer := Joined(collected);
    if WordCount(issuer) <= 4 {
      collected := AppendUpperLines(lines, stop, |collected|);
      issuer := Joined(collected);
    }
    r := if issuer != [] then Some(issuer) else None;
  }

  /** From index `j` on, with the flag the lines before `j` leave, the first pass passes
      stop lines only inside an open quote and halts at the first stop line outside one. */
  lemma {:induction false} FirstPassFrom(lines: seq<string>, stop: string -> bool, j: nat)
    requires j <= |lines|
    ensures forall i :: j <= i < FirstPassEnd(lines, stop, j, QuoteState(lines[..j])) ==>
      !stop(lines[i]) || QuoteState(lines[..i])
    ensures FirstPassEnd(lines, stop, j, QuoteState(lines[..j])) < |lines| ==>
      stop(lines[FirstPassEnd(lines, stop, j, QuoteState(lines[..j]))])
      && !QuoteState(lines[..FirstPassEnd(lines, stop, j, QuoteState(lines[..j]))])
    decreases |lines| - j
  {
    if j < |lines| && !(stop(lines[j]) && !QuoteState(lines[..j])) {
      assert lines[..j + 1][..j] == lines[..j];
      FirstPassFrom(lines, stop, j + 1);
    }
  }

  /** The issuer is collected from a prefix of the stripped, non-empty header lines: stop
      lines are passed only while a «…» quote is open, and collection ends at the first
      stop line outside a quote. */
  lemma FirstPassSpec(lines: seq<string>, stop: string -> bool)
    ensures forall i :: 0 <= i < FirstPassEnd(lines, stop, 0, false) ==> !stop(lines[i]) || QuoteState(lines[..i])
    ensures FirstPassEnd(lines, stop, 0, false) < |lines| ==>
      stop(lines[FirstPassEnd(lines, stop, 0, false)]) && !QuoteState(lines[..FirstPassEnd(lines, stop, 0, false)])
  {
    assert lines[..0] == [];
    FirstPassFrom(lines, stop, 0);
  }

  /** The second pass never adds a line: the first pass only halts at a stop line or at
      the end, and the second pass halts at once on a stop line. */
  lemma SecondPassAddsNothing(lines: seq<string>, stop: string -> bool)
    ensures SecondPassEnd(lines, stop, FirstPassEnd(lines, stop, 0, false)) == FirstPassEnd(lines, stop, 0, false)
  {
    FirstPassSpec(lines, stop);
  }

  /** Each stripped header line is non-empty and starts with a non-space character. */
  lemma StrippedLinesSpec(raw: seq<string>)
    ensures forall k :: 0 <= k < |StrippedLines(raw)| ==> StrippedLines(raw)[k] != [] && NotSpace(StrippedLines(raw)[k][0])
  {
    FilterMembers(StripAll(raw), NonEmpty);
    forall k | 0 <= k < |StrippedLines(raw)| ensures StrippedLines(raw)[k] != [] && NotSpace(StrippedLines(raw)[k][0]) {
      var p :| 0 <= p < |StripAll(raw)| && StripAll(raw)[p] == StrippedLines(raw)[k];
      assert StrippedLines(raw)[k] == Strip(raw[p]);
    }
  }

  /** Joining lines whose first starts with a non-space character gives a non-empty
      issuer. */
  lemma JoinedNonEmpty(lines: seq<string>)
    requires lines != [] && lines[0] != [] && NotSpace(lines[0][0])
    ensures Joined(lines) != []
  {
    JoinStart(" ", lines);
    assert NotSpace(Join(" ", lines)[0]);
  }

  /** No issuer without a non-empty header; otherwise the issuer is the first pass's lines
      joined, present exactly when the first header line is not a stop line. */
  lemma IssuerSpec(stop: string -> bool, headerRaw: Option<string>)
    ensures !Truthy(headerRaw) ==> IssuerOf(stop, headerRaw).None?
    ensures IssuerOf(stop, headerRaw).Some? ==> IssuerOf(stop, headerRaw).value != []
    ensures Truthy(headerRaw) ==>
      var lines := StrippedLines(SplitLines(headerRaw.value));
      && (IssuerOf(stop, headerRaw).None? <==> lines == [] || stop(lines[0]))
      && (IssuerOf(stop, headerRaw).Some? ==>
            IssuerOf(stop, headerRaw).value == Joined(lines[..FirstPassEnd(lines, stop, 0, false)]))
  {
    if Truthy(headerRaw) {
      var lines := StrippedLines(SplitLines(headerRaw.value));
      if lines != [] {
        var k := FirstPassEnd(lines, stop, 0, false);
        SecondPassAddsNothing(lines, stop);
        StrippedLinesSpec(SplitLines(headerRaw.value));
        if k > 0 {
          assert lines[..k][0] == lines[0];
          JoinedNonEmpty(lines[..k]);
        } else {
          assert lines[..k] == [];
        }
      }
    }
  }

  // ---------------------------------------------------------------------------------
  // Addressee

  /** The first index from `j` on whose line satisfies `p`. */
  function FirstMatch(lines: seq<string>, p: string -> bool, j: nat): (r: Option<nat>)
    requires j <= |lines|
    ensures r.Some? ==> j <= r.value < |lines| && p(lines[r.value]) && forall i :: j <= i < r.value ==> !p(lines[i])
    ensures r.None? ==> forall i :: j <= i < |lines| ==> !p(lines[i])
    decreases |lines| - j
  {
    if j == |lines| then None else if p(lines[j]) then Some(j) else FirstMatch(lines, p, j + 1)
  }

  /** The end of the run of lines that are non-blank once stripped, from index `j`. */
  function BlockEnd(strip: string -> string, lines: seq<string>, j: nat): (e: nat)
    requires j <= |lines|
    ensures j <= e <= |lines|
    ensures forall i :: j <= i < e ==> strip(lines[i]) != []
    ensures e < |lines| ==> strip(lines[e]) == []
    decreases |lines| - j
  {
    if j == |lines| || strip(lines[j]) == [] then j else BlockEnd(strip, lines, j + 1)
  }

  /** The stripped lines from index `j` up to the first blank line. */
  function BlockFrom(strip: string -> string, lines: seq<string>, j: nat): seq<string>
    requires j <= |lines|
    decreases |lines| - j
  {
    if j == |lines| || strip(lines[j]) == [] then [] else [strip(lines[j])] + BlockFrom(strip, lines, j + 1)
  }

  /** The block from `j` holds, in order, the stripped lines `j` up to `BlockEnd`. */
  lemma {:induction false} BlockFromSpec(strip: string -> string, lines: seq<string>, j: nat)
    requires j <= |lines|
    ensures |BlockFrom(strip, lines, j)| == BlockEnd(strip, lines, j) - j
    ensures forall i :: 0 <= i < |BlockFrom(strip, lines, j)| ==> BlockFrom(strip, lines, j)[i] == strip(lines[j + i])
    decreases |lines| - j
  {
    if j < |lines| && strip(lines[j]) != [] {
      BlockFromSpec(strip, lines, j + 1);
      var rest := BlockFrom(strip, lines, j + 1);
      assert BlockFrom(strip, lines, j) == [strip(lines[j])] + rest;
      forall i | 0 < i < |BlockFrom(strip, lines, j)| ensures BlockFrom(strip, lines, j)[i] == strip(lines[j + i]) {
        assert BlockFrom(strip, lines, j)[i] == rest[i - 1];
      }
    }
  }

  /** What `_extract_addressee` returns. */
  function AddresseeOf(isAddressee: string -> bool, text: string): Option<string> {
    var lines := SplitLines(text);
    match FirstMatch(lines, isAddressee, 0)
    case None => None
    case Some(j) => Some(Join(" ", [Strip(lines[j])] + BlockFrom(Strip, lines, j + 1)))
  }

  /** Extending a partial block by the line at `k`: a non-blank line joins the block, a
      blank line or the end of the lines completes it. */
  lemma BlockFromStep(strip: string -> string, lines: seq<string>, k: nat, block: seq<string>)
    requires k <= |lines|
    ensures k < |lines| && strip(lines[k]) != [] ==>
      block + BlockFrom(strip, lines, k) == (block + [strip(lines[k])]) + BlockFrom(strip, lines, k + 1)
    ensures k == |lines| || strip(lines[k]) == [] ==> block + BlockFrom(strip, lines, k) == block
  {
    if k < |lines| && strip(lines[k]) != [] {
      assert BlockFrom(strip, lines, k) == [strip(lines[k])] + BlockFrom(strip, lines, k + 1);
    } else {
      assert BlockFrom(strip, lines, k) == [];
    }
  }

  /** The inner loop of `_extract_addressee`: the matching line at `idx` and the
      non-blank lines after it, stripped. */
  method CollectBlock(lines: seq<string>, idx: nat) returns (block: seq<string>)
    requires idx < |lines|
    ensures block == [Strip(lines[idx])] + BlockFrom(Strip, lines, idx + 1)
  {
    block := [Strip(lines[idx])];
    var k := idx + 1;
    while k < |lines|
      invariant idx + 1 <= k <= |lines|
      invariant block + BlockFrom(Strip, lines, k) == [Strip(lines[idx])] + BlockFrom(Strip, lines, idx + 1)
    {
      BlockFromStep(Strip, lines, k, block);
      var next := Strip(lines[k]);
      if next == [] {
        break;
      }
      block := block + [next];
      k := k + 1;
    }
    BlockFromStep(Strip, lines, k, block);
  }

  /** `_extract_addressee` */
  method ExtractAddressee(isAddressee: string -> bool, text: string) returns (r: Option<string>)
    ensures r == AddresseeOf(isAddressee, text)
  {
    var lines := SplitLines(text);
    for idx := 0 to |lines|
      invariant FirstMatch(lines, isAddressee, idx) == FirstMatch(lines, isAddressee, 0)
    {
      if !isAddressee(lines[idx]) {
        continue;
      }
      var block := CollectBlock(lines, idx);
      return Some(Join(" ", block));
    }
    return None;
  }

  /** There is no addressee when no line matches. */
  lemma NoAddressee(isAddressee: string -> bool, text: string)
    requires forall i :: 0 <= i < |SplitLines(text)| ==> !isAddressee(SplitLines(text)[i])
    ensures AddresseeOf(isAddressee, text).None?
  {
  }

  /** With a first matching line at `j`, the addressee is that line stripped followed
      by the block of non-blank stripped lines right after it, joined by spaces. */
  lemma AddresseeAt(isAddressee: string -> bool, text: string, lines: seq<string>, j: nat)
    requires lines == SplitLines(text)
    requires j < |lines| && isAddressee(lines[j])
    requires forall i :: 0 <= i < j ==> !isAddressee(lines[i])
    ensures AddresseeOf(isAddressee, text) == Some(Join(" ", [Strip(lines[j])] + BlockFrom(Strip, lines, j + 1)))
  {
    assert FirstMatch(lines, isAddressee, 0) == Some(j);
  }

  // ---------------------------------------------------------------------------------
  // Attachments

  predicate IsListSep(c: char) {
    c == ';' || c == ','
  }

  predicate NotListSep(c: char) {
    !IsListSep(c)
  }

  /** `re.split(r"[;,]", s)`: the pieces between separators, empty ones included. */
  function SplitAtSeps(s: string): (r: seq<string>)
    ensures r != []
    ensures forall k, i :: 0 <= k < |r| && 0 <= i < |r[k]| ==> NotListSep(r[k][i])
    decreases |s|
  {
    var n := RunLength(s, NotListSep);
    if n == |s| then [s] else [s[..n]] + SplitAtSeps(s[n + 1..])
  }

  /** `[chunk.strip() for chunk in re.split(r"[;,]", match) if chunk.strip()]` */
  function Chunks(found: string): seq<string> {
    Filter(StripAll(SplitAtSeps(found)), NonEmpty)
  }

  /** The chunks of every match, one match after the other. */
  function AttachmentsOf(matches: seq<string>): seq<string> {
    if matches == [] then [] else AttachmentsOf(matches[..|matches| - 1]) + Chunks(matches[|matches| - 1])
  }

  /** `_extract_attachments`, given the matches of the attachment pattern. */
  method ExtractAttachments(matches: seq<string>) returns (attachments: seq<string>)
    ensures attachments == AttachmentsOf(matches)
  {
    attachments := [];
    for i := 0 to |matches|
      invariant attachments == AttachmentsOf(matches[..i])
    {
      assert matches[..i + 1][..i] == matches[..i];
      var chunks := Chunks(matches[i]);
      attachments := attachments + chunks;
    }
    assert matches[..|matches|] == matches;
  }

  /** An infix keeps only characters of the whole. */
  lemma InfixKeeps(s: string, t: string, r: string)
    requires |t| <= |s| && t == s[|s| - |t|..] && |r| <= |t| && r == t[..|r|]
    ensures forall i :: 0 <= i < |r| ==> r[i] in s
  {
    var a := |s| - |t|;
    assert forall i :: 0 <= i < |r| ==> r[i] == s[a + i];
  }

  /** A stripped piece keeps only characters of the piece. */
  lemma StripKeeps(s: string)
    ensures forall i :: 0 <= i < |Strip(s)| ==> Strip(s)[i] in s
  {
    StripInfix(s);
    InfixKeeps(s, TrimStart(s), Strip(s));
  }

  /** A non-empty piece without ';' or ','. */
  predicate IsChunk(s: string) {
    s != [] && forall i :: 0 <= i < |s| ==> NotListSep(s[i])
  }

  /** A piece without separators that does not strip to nothing gives a chunk. */
  lemma ChunkOf(piece: string)
    requires forall i :: 0 <= i < |piece| ==> NotListSep(piece[i])
    requires Strip(piece) != []
    ensures IsChunk(Strip(piece)) && NotSpace(Strip(piece)[0]) && NotSpace(Strip(piece)[|Strip(piece)| - 1])
  {
    StripKeeps(piece);
  }

  /** Each chunk is non-empty, stripped, and holds no ';' or ','. */
  lemma ChunksSpec(found: string)
    ensures forall k :: 0 <= k < |Chunks(found)| ==>
      IsChunk(Chunks(found)[k]) && NotSpace(Chunks(found)[k][0]) && NotSpace(Chunks(found)[k][|Chunks(found)[k]| - 1])
  {
    var pieces := SplitAtSeps(found);
    var stripped := StripAll(pieces);
    var chunks := Filter(stripped, NonEmpty);
    FilterMembers(stripped, NonEmpty);
    forall k | 0 <= k < |chunks|
      ensures IsChunk(chunks[k]) && NotSpace(chunks[k][0]) && NotSpace(chunks[k][|chunks[k]| - 1])
    {
      var p :| 0 <= p < |stripped| && stripped[p] == chunks[k];
      assert stripped[p] == Strip(pieces[p]);
      ChunkOf(pieces[p]);
    }
  }

  /** Appending chunks to chunks keeps every element a chunk. */
  lemma ChunksAppend(a: seq<string>, c: seq<string>)
    requires forall k :: 0 <= k < |a| ==> IsChunk(a[k])
    requires forall k :: 0 <= k < |c| ==> IsChunk(c[k])
    ensures forall k :: 0 <= k < |a + c| ==> IsChunk((a + c)[k])
  {
    forall k | 0 <= k < |a + c| ensures IsChunk((a + c)[k]) {
      if k < |a| { assert (a + c)[k] == a[k]; } else { assert (a + c)[k] == c[k - |a|]; }
    }
  }

  /** Every attachment is a chunk as above. */
  lemma {:induction false} AttachmentsSpec(matches: seq<string>)
    ensures forall k :: 0 <= k < |AttachmentsOf(matches)| ==> IsChunk(AttachmentsOf(matches)[k])
  {
    if matches != [] {
      var init := matches[..|matches| - 1];
      AttachmentsSpec(init);
      ChunksSpec(matches[|matches| - 1]);
      ChunksAppend(AttachmentsOf(init), Chunks(matches[|matches| - 1]));
    }
  }

  // ---------------------------------------------------------------------------------
  // Deadline, document type, topics

  /** `_extract_deadline`: the "в срок до" date if there is one, else the "просим … до"
      date, else none. */
  function DeadlineOf(m: Matchers, text: string): (r: Option<string>)
    ensures r.Some? <==> m.deadlineDue(text).Some? || m.deadlinePlease(text).Some?
    ensures m.deadlineDue(text).Some? ==> r == m.deadlineDue(text)
    ensures m.deadlineDue(text).None? ==> r == m.deadlinePlease(text)
  {
    if m.deadlineDue(text).Some? then m.deadlineDue(text) else m.deadlinePlease(text)
  }

  const Reporting := "reporting"
  const ActionRequired := "action_required"
  const Request := "request"
  const Informational := "informational"

  predicate ReportingCue(lowered: string) {
    Contains(lowered, "приложение xlsx")
  }

  predicate FormCue(lowered: string) {
    Contains(lowered, "просим заполнить") || Contains(lowered, "направить форму")
  }

  predicate RequestCue(lowered: string) {
    Contains(lowered, "о запросе информации") || Contains(lowered, "просим направить")
  }

  predicate InformCue(lowered: string) {
    Contains(lowered, "направляем для ознакомления")
  }

  predicate RequestSubject(subject: Option<string>) {
    Truthy(subject) && "о запросе информации" <= Lower(subject.value)
  }

  /** `_detect_doc_type` */
  function DocTypeOf(text: string, subject: Option<string>, deadline: Option<string>): Option<string> {
    var lowered := Lower(text);
    if ReportingCue(lowered) && deadline.Some? then Some(Reporting)
    else if FormCue(lowered) then Some(ActionRequired)
    else if RequestCue(lowered) && deadline.Some? then Some(Request)
    else if InformCue(lowered) then Some(Informational)
    else if RequestSubject(subject) && deadline.Some? then Some(Request)
    else None
  }

  /** The first label whose condition holds wins; "reporting" and "request" need a
      deadline; without one the label is "action_required", "informational" or none and
      the subject plays no part. */
  lemma DocTypeSpec(text: string, subject: Option<string>, deadline: Option<string>)
    ensures var r := DocTypeOf(text, subject, deadline);
      && (r == Some(Reporting) || r == Some(Request) ==> deadline.Some?)
      && (r == Some(Reporting) <==> ReportingCue(Lower(text)) && deadline.Some?)
      && (r == Some(ActionRequired) <==> !(ReportingCue(Lower(text)) && deadline.Some?) && FormCue(Lower(text)))
      && (r == Some(Informational) <==>
            !(ReportingCue(Lower(text)) && deadline.Some?) && !FormCue(Lower(text))
            && !(RequestCue(Lower(text)) && deadline.Some?) && InformCue(Lower(text)))
      && (r.None? <==>
            !(ReportingCue(Lower(text)) && deadline.Some?) && !FormCue(Lower(text))
            && !(RequestCue(Lower(text)) && deadline.Some?) && !InformCue(Lower(text))
            && !(RequestSubject(subject) && deadline.Some?))
      && (deadline.None? ==> r == DocTypeOf(text, None, None))
  {
  }

  const AiTopic := "AI"
  const ReportingTopic := "reporting"
  const FinanceTopic := "finance"
  const CvTopic := "CV"

  /** `_detect_topics`: the labels whose cues occur in the lowered text, in a fixed order. */
  function TopicsOf(m: Matchers, text: string): (r: seq<string>)
    ensures NoDup(r)
    ensures forall i :: 0 <= i < |r| ==> r[i] in [AiTopic, ReportingTopic, FinanceTopic, CvTopic]
  {
    var lowered := Lower(text);
    (if m.aiWord(lowered) || Contains(lowered, "искусственного интеллекта") then [AiTopic] else [])
    + (if Contains(lowered, "отчет") || Contains(lowered, "отчёт") || Contains(lowered, "отчетность") then [ReportingTopic] else [])
    + (if Contains(lowered, "финансирование") || Contains(lowered, "субсидия") then [FinanceTopic] else [])
    + (if Contains(lowered, "видеонаблюдение") || Contains(lowered, "компьютерное зрение") then [CvTopic] else [])
  }

  // ---------------------------------------------------------------------------------
  // The result

  const OcrUsedFlag := "ocr_used"
  const MissingRegNumberFlag := "missing_reg_number"

  datatype NormalizationResult = NormalizationResult(
    docType: Option<string>, issuer: Option<string>, addressee: Option<string>, subject: Option<string>,
    actionRequired: bool, deadline: Option<string>, attachments: seq<string>, topics: seq<string>,
    signatory: Option<string>, contacts: seq<string>, cleanTextForLlm: string, confidenceFlags: map<string, bool>)

  /** A matched group, stripped. */
  function StripGroup(g: Option<string>): Option<string> {
    match g
    case None => None
    case Some(s) => Some(Strip(s))
  }

  /** What `normalize_text` returns. */
  function NormalizationOf(m: Matchers, text: string, ocrUsed: bool): NormalizationResult {
    var cleaned := HardCleanup(m, text);
    var subject := StripGroup(m.subject(cleaned));
    var deadline := DeadlineOf(m, cleaned);
    NormalizationResult(
      DocTypeOf(cleaned, subject, deadline),
      IssuerOf(m.stopLine, StripGroup(m.header(cleaned))),
      AddresseeOf(m.addresseeLine, cleaned),
      subject,
      deadline.Some?,
      deadline,
      AttachmentsOf(m.attachments(cleaned)),
      TopicsOf(m, cleaned),
      StripGroup(m.signatory(cleaned)),
      StripAll(m.contacts(cleaned)),
      cleaned,
      map[OcrUsedFlag := ocrUsed, MissingRegNumberFlag := m.regNumber(cleaned).None?])
  }

  /** `normalize_text` */
  method NormalizeText(m: Matchers, text: string, ocrUsed: bool) returns (r: NormalizationResult)
    ensures r == NormalizationOf(m, text, ocrUsed)
  {
    var cleaned := HardCleanup(m, text);
    var headerRaw := StripGroup(m.header(cleaned));
    var issuer := ExtractIssuer(m.stopLine, headerRaw);
    var addressee := ExtractAddressee(m.addresseeLine, cleaned);
    var subject := StripGroup(m.subject(cleaned));
    var regNumber := StripGroup(m.regNumber(cleaned));
    var attachments := ExtractAttachments(m.attachments(cleaned));
    var deadline := DeadlineOf(m, cleaned);
    var signatory := StripGroup(m.signatory(cleaned));
    var contacts := StripAll(m.contacts(cleaned));
    var docType := DocTypeOf(cleaned, subject, deadline);
    var topics := TopicsOf(m, cleaned);
    var flags := map[OcrUsedFlag := ocrUsed, MissingRegNumberFlag := regNumber.None?];
    r := NormalizationResult(docType, issuer, addressee, subject, deadline.Some?, deadline, attachments, topics,
                             signatory, contacts, cleaned, flags);
  }

  /** Action is required exactly when a deadline was found; the flags echo the OCR
      argument and record a missing registration number. */
  lemma NormalizationFlags(m: Matchers, text: string, ocrUsed: bool, r: NormalizationResult)
    requires r == NormalizationOf(m, text, ocrUsed)
    ensures r.actionRequired <==> r.deadline.Some?
    ensures r.confidenceFlags.Keys == {OcrUsedFlag, MissingRegNumberFlag}
    ensures r.confidenceFlags[OcrUsedFlag] == ocrUsed
    ensures r.confidenceFlags[MissingRegNumberFlag] <==> m.regNumber(r.cleanTextForLlm).None?
  {
    var cleaned := HardCleanup(m, text);
    assert r.cleanTextForLlm == cleaned;
    assert OcrUsedFlag != MissingRegNumberFlag;
    assert r.confidenceFlags == map[OcrUsedFlag := ocrUsed, MissingRegNumberFlag := m.regNumber(cleaned).None?];
  }

  /** A letter classified as "reporting" or "request" always requires action. */
  lemma DocTypeNeedsAction(m: Matchers, text: string, ocrUsed: bool, r: NormalizationResult)
    requires r == NormalizationOf(m, text, ocrUsed)
    ensures r.docType == Some(Reporting) || r.docType == Some(Request) ==> r.actionRequired
  {
    var cleaned := HardCleanup(m, text);
    var deadline := DeadlineOf(m, cleaned);
    DocTypeSpec(cleaned, StripGroup(m.subject(cleaned)), deadline);
  }

  /** The text handed to the model has no three newlines in a row and no two adjacent
      spaces or tabs; the issuer is absent or non-empty; every attachment is a
      non-empty chunk without separators. */
  lemma NormalizationFields(m: Matchers, text: string, ocrUsed: bool)
    ensures var r := NormalizationOf(m, text, ocrUsed);
      && NoTripleNewline(r.cleanTextForLlm) && NoDoubleBlank(r.cleanTextForLlm)
      && (r.issuer.Some? ==> r.issuer.value != [])
      && (forall k :: 0 <= k < |r.attachments| ==> IsChunk(r.attachments[k]))
  {
    var cleaned := HardCleanup(m, text);
    HardCleanupShape(m, text);
    IssuerSpec(m.stopLine, StripGroup(m.header(cleaned)));
    AttachmentsSpec(m.attachments(cleaned));
  }

  /** `normalize_texts`: one result per text, in order, all with the same OCR flag. */
  function NormalizeTexts(m: Matchers, texts: seq<string>, ocrUsed: bool): (r: seq<NormalizationResult>)
    ensures |r| == |texts|
    ensures forall i :: 0 <= i < |texts| ==> r[i] == NormalizationOf(m, texts[i], ocrUsed)
  {
    seq(|texts|, i requires 0 <= i < |texts| => NormalizationOf(m, texts[i], ocrUsed))
  }
}
