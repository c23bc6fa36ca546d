/** The merge-field engine of googleMail/index.js: finding the field names a
    template asks for, checking them against the supplied fields, and
    substituting `{{name}}` placeholders one entry at a time. */
module MergeFields {
  import opened Results
  import opened Bytes

  const LeftBrace: Byte := 123   // '{'
  const RightBrace: Byte := 125  // '}'
  const Space: Byte := 32
  const Dollar: Byte := 36       // '$'
  const Ampersand: Byte := 38    // '&'
  const Backtick: Byte := 96     // '`'
  const Quote: Byte := 39        // '\''

  predicate IsBrace(b: Byte) {
    b == LeftBrace || b == RightBrace
  }

  predicate BraceFree(s: Text) {
    forall k | 0 <= k < |s| :: !IsBrace(s[k])
  }

  // ---------------------------------------------------------------------------
  // Extraction: the global match of /[^{}]+(?=})/
  // ---------------------------------------------------------------------------

  /** A match of the pattern is the text `s[start..end]`. */
  datatype Span = Span(start: nat, end: nat)

  /** Where a greedy `[^{}]+` starting at `i` stops: the first brace at or
      after `i`, or the end of the text. */
  function RunEnd(s: Text, i: nat): (e: nat)
    requires i <= |s|
    decreases |s| - i
    ensures i <= e <= |s|
    ensures forall k | i <= k < e :: !IsBrace(s[k])
    ensures e == |s| || IsBrace(s[e])
  {
    if i == |s| || IsBrace(s[i]) then i else RunEnd(s, i + 1)
  }

  /** The regex engine backtracking from the greedy end `e` towards `i`: the
      longest non-empty prefix of the run whose next character is `}`. */
  function Backtrack(s: Text, i: nat, e: nat): (r: Option<nat>)
    requires i <= e <= |s|
    decreases e - i
    ensures r.Some? ==> i < r.value <= e
  {
    if e == i then None
    else if e < |s| && s[e] == RightBrace then Some(e)
    else Backtrack(s, i, e - 1)
  }

  /** The match attempted at index `i`, as its end index. */
  function MatchAt(s: Text, i: nat): Option<nat>
    requires i <= |s|
  {
    Backtrack(s, i, RunEnd(s, i))
  }

  /** The global match from `lastIndex = i`: after a match the scan resumes at
      its end, after a failed attempt at the next index. */
  function ScanFrom(s: Text, i: nat): (r: seq<Span>)
    requires i <= |s|
    decreases |s| - i
    ensures forall k | 0 <= k < |r| :: i <= r[k].start < r[k].end < |s|
  {
    if i == |s| then []
    else
      match MatchAt(s, i)
      case Some(j) =>
        assert j < |s| by { BacktrackOnlyAtRunEnd(s, i, RunEnd(s, i)); }
        [Span(i, j)] + ScanFrom(s, j)
      case None => ScanFrom(s, i + 1)
  }

  /** The matches of the whole text, in the order `String.prototype.match`
      returns them. */
  function Spans(s: Text): seq<Span> {
    ScanFrom(s, 0)
  }

  /** The requested field names: the matched texts. */
  function Names(s: Text): (r: seq<Text>)
    ensures |r| == |Spans(s)|
  {
    var sp := Spans(s);
    seq(|sp|, k requires 0 <= k < |sp| => s[sp[k].start..sp[k].end])
  }

  /** The declarative reading of the pattern: `s[i..j]` is a maximal
      non-empty brace-free run (it starts at the text's start or just after a
      brace) and the character right after it is `}`. */
  predicate IsFieldSpan(s: Text, i: int, j: int) {
    && 0 <= i < j < |s|
    && (i == 0 || IsBrace(s[i - 1]))
    && BraceFree(s[i..j])
    && s[j] == RightBrace
  }

  /** Backtracking can only succeed at the greedy end: every shorter prefix is
      followed by a non-brace character. */
  lemma {:induction false} BacktrackOnlyAtRunEnd(s: Text, i: nat, e: nat)
    requires i <= e <= |s|
    requires forall k | i <= k < e :: !IsBrace(s[k])
    ensures Backtrack(s, i, e) ==
      (if i < e < |s| && s[e] == RightBrace then Some(e) else None)
    decreases e - i
  {
    if e > i && !(e < |s| && s[e] == RightBrace) {
      BacktrackOnlyAtRunEnd(s, i, e - 1);
    }
  }

  lemma MatchAtIsRun(s: Text, i: nat)
    requires i <= |s|
    ensures var e := RunEnd(s, i);
      MatchAt(s, i) == (if i < e < |s| && s[e] == RightBrace then Some(e) else None)
  {
    BacktrackOnlyAtRunEnd(s, i, RunEnd(s, i));
  }

  /** The run through `i` goes on to a `}` although it did not start at `i`:
      a scan resumed here would report a non-maximal run. */
  predicate InsideMatchedRun(s: Text, i: nat)
    requires i <= |s|
  {
    && 0 < i < |s|
    && !IsBrace(s[i - 1])
    && !IsBrace(s[i])
    && RunEnd(s, i) < |s|
    && s[RunEnd(s, i)] == RightBrace
  }

  /** The runs starting at `i` and at `i + 1` end together when `s[i]` is
      not a brace. */
  lemma RunEndStep(s: Text, i: nat)
    requires i < |s| && !IsBrace(s[i])
    ensures RunEnd(s, i) == RunEnd(s, i + 1)
  {
  }

  /** A field span's end is the greedy end of the run it starts. */
  lemma FieldSpanRunEnd(s: Text, i: nat, j: nat)
    requires IsFieldSpan(s, i, j)
    ensures RunEnd(s, i) == j
    decreases j - i
  {
    if i + 1 < j {
      assert s[i + 1..j] == s[i..j][1..];
      assert !IsBrace(s[i]) by { assert s[i] == s[i..j][0]; }
      RunEndStep(s, i);
      RunEndTail(s, i + 1, j);
    } else {
      assert !IsBrace(s[i]) by { assert s[i] == s[i..j][0]; }
    }
  }

  lemma {:induction false} RunEndTail(s: Text, i: nat, j: nat)
    requires i <= j < |s| && BraceFree(s[i..j]) && IsBrace(s[j])
    ensures RunEnd(s, i) == j
    decreases j - i
  {
    if i < j {
      assert !IsBrace(s[i]) by { assert s[i] == s[i..j][0]; }
      assert s[i + 1..j] == s[i..j][1..];
      RunEndTail(s, i + 1, j);
    }
  }

  /** `r` lists exactly the field spans that start at or after `i`, in
      increasing order and without overlap. */
  ghost predicate ExactFrom(s: Text, i: nat, r: seq<Span>) {
    && (forall k | 0 <= k < |r| :: IsFieldSpan(s, r[k].start, r[k].end))
    && (forall a, b | i <= a && IsFieldSpan(s, a, b) :: Span(a, b) in r)
    && (forall k, l | 0 <= k < l < |r| :: r[k].end < r[l].start)
  }

  /** From any resumable index, the scan reports exactly the field spans that
      start at or after it, in increasing order. */
  lemma {:induction false} ScanFromExact(s: Text, i: nat)
    requires i <= |s| && !InsideMatchedRun(s, i)
    ensures forall k | 0 <= k < |ScanFrom(s, i)| ::
      IsFieldSpan(s, ScanFrom(s, i)[k].start, ScanFrom(s, i)[k].end)
    ensures forall a, b | i <= a && IsFieldSpan(s, a, b) :: Span(a, b) in ScanFrom(s, i)
    ensures forall k, l | 0 <= k < l < |ScanFrom(s, i)| ::
      ScanFrom(s, i)[k].end < ScanFrom(s, i)[l].start
    decreases |s| - i
  {
    if i < |s| {
      MatchAtIsRun(s, i);
      match MatchAt(s, i)
      case Some(j) =>
        assert !InsideMatchedRun(s, j);
        ScanFromExact(s, j);
        ScanMatchStep(s, i, j);
      case None =>
        assert !InsideMatchedRun(s, i + 1) by {
          if !IsBrace(s[i]) && i + 1 < |s| {
            RunEndStep(s, i);
          }
        }
        ScanFromExact(s, i + 1);
        ScanSkipStep(s, i);
    }
  }

  /** A match at `i` ending at `j`, followed by the exact scan from `j`, is
      the exact scan from `i`. */
  lemma ScanMatchStep(s: Text, i: nat, j: nat)
    requires i < j < |s| && MatchAt(s, i) == Some(j) && RunEnd(s, i) == j
    requires s[j] == RightBrace && !InsideMatchedRun(s, i)
    requires ExactFrom(s, j, ScanFrom(s, j))
    ensures ExactFrom(s, i, ScanFrom(s, i))
  {
    var rest := ScanFrom(s, j);
    assert ScanFrom(s, i) == [Span(i, j)] + rest;
    assert IsFieldSpan(s, i, j);
    SpansAfterBrace(s, j, rest);
    ConsExact(s, i, j, rest);
  }

  /** Field spans at or after a brace start strictly after it. */
  lemma SpansAfterBrace(s: Text, j: nat, rest: seq<Span>)
    requires j < |s| && IsBrace(s[j])
    requires forall k | 0 <= k < |rest| :: j <= rest[k].start
    requires forall k | 0 <= k < |rest| :: IsFieldSpan(s, rest[k].start, rest[k].end)
    ensures forall k | 0 <= k < |rest| :: j < rest[k].start
  {
    forall k | 0 <= k < |rest|
      ensures j < rest[k].start
    {
      var st, en := rest[k].start, rest[k].end;
      assert IsFieldSpan(s, st, en);
      assert !IsBrace(s[st]) by {
        assert s[st] == s[st..en][0];
      }
    }
  }

  /** A field span that is a whole run, put in front of the exact list of
      the spans after its end, gives the exact list from its start. */
  lemma ConsExact(s: Text, i: nat, j: nat, rest: seq<Span>)
    requires IsFieldSpan(s, i, j) && RunEnd(s, i) == j
    requires ExactFrom(s, j, rest)
    requires forall k | 0 <= k < |rest| :: j < rest[k].start
    ensures ExactFrom(s, i, [Span(i, j)] + rest)
  {
    var r := [Span(i, j)] + rest;
    forall a, b | i <= a && IsFieldSpan(s, a, b)
      ensures Span(a, b) in r
    {
      if a == i {
        FieldSpanRunEnd(s, a, b);
      } else {
        assert j <= a;
        assert Span(a, b) in rest;
      }
    }
    forall k | 0 <= k < |r|
      ensures IsFieldSpan(s, r[k].start, r[k].end)
    {
      if k > 0 {
        assert r[k] == rest[k - 1];
      }
    }
    forall k, l | 0 <= k < l < |r|
      ensures r[k].end < r[l].start
    {
      assert r[l] == rest[l - 1];
      if k > 0 {
        assert r[k] == rest[k - 1];
      }
    }
  }

  /** A failed attempt at `i`, followed by the exact scan from `i + 1`, is
      the exact scan from `i`. */
  lemma ScanSkipStep(s: Text, i: nat)
    requires i < |s| && MatchAt(s, i) == None && !InsideMatchedRun(s, i)
    requires MatchAt(s, i) == (if i < RunEnd(s, i) < |s| && s[RunEnd(s, i)] == RightBrace
                               then Some(RunEnd(s, i)) else None)
    requires ExactFrom(s, i + 1, ScanFrom(s, i + 1))
    ensures ExactFrom(s, i, ScanFrom(s, i))
  {
    assert ScanFrom(s, i) == ScanFrom(s, i + 1);
    forall a, b | i <= a && IsFieldSpan(s, a, b)
      ensures Span(a, b) in ScanFrom(s, i)
    {
      if a == i {
        FieldSpanRunEnd(s, a, b);
        assert false;
      }
    }
  }

  /** The requested names are exactly the texts of the field spans, reported
      left to right without overlap. */
  lemma NamesAreFieldRuns(s: Text)
    ensures forall k | 0 <= k < |Spans(s)| :: IsFieldSpan(s, Spans(s)[k].start, Spans(s)[k].end)
    ensures forall i, j | IsFieldSpan(s, i, j) :: Span(i, j) in Spans(s)
    ensures forall k, l | 0 <= k < l < |Spans(s)| :: Spans(s)[k].end < Spans(s)[l].start
    ensures forall x :: x in Names(s) <==> exists i, j :: IsFieldSpan(s, i, j) && s[i..j] == x
  {
    ScanFromExact(s, 0);
    var sp := Spans(s);
    forall x | x in Names(s)
      ensures exists i, j :: IsFieldSpan(s, i, j) && s[i..j] == x
    {
      var k :| 0 <= k < |Names(s)| && Names(s)[k] == x;
      assert IsFieldSpan(s, sp[k].start, sp[k].end);
    }
    forall i, j | IsFieldSpan(s, i, j)
      ensures s[i..j] in Names(s)
    {
      var k :| 0 <= k < |sp| && sp[k] == Span(i, j);
      assert Names(s)[k] == s[i..j];
    }
  }

  // ---------------------------------------------------------------------------
  // Validation
  // ---------------------------------------------------------------------------

  /** One merge-field entry: a key and the text it stands for. */
  datatype Field = Field(name: Text, value: Text)

  /** The keys of the field map, which the `in` test consults. */
  function Keys(fields: seq<Field>): set<Text> {
    set k | 0 <= k < |fields| :: fields[k].name
  }

  /** The position of the first appearance of `x` in `xs`. */
  function FirstIndex(xs: seq<Text>, x: Text): (r: nat)
    requires x in xs
    ensures r < |xs| && xs[r] == x
    ensures forall j | 0 <= j < r :: xs[j] != x
  {
    if xs[0] == x then 0 else 1 + FirstIndex(xs[1..], x)
  }

  /** First appearances in a prefix are first appearances in the whole. */
  lemma FirstIndexPrefix(xs: seq<Text>, n: nat, x: Text)
    requires n <= |xs| && x in xs[..n]
    ensures FirstIndex(xs, x) == FirstIndex(xs[..n], x)
  {
    var i, j := FirstIndex(xs, x), FirstIndex(xs[..n], x);
    assert xs[j] == x;
  }

  /** `r` lists elements of `xs` ordered by where they first appear in `xs`;
      in particular it repeats none. */
  predicate InFirstAppearanceOrder(r: seq<Text>, xs: seq<Text>) {
    && (forall k | 0 <= k < |r| :: r[k] in xs)
    && (forall a, b | 0 <= a < b < |r| :: FirstIndex(xs, r[a]) < FirstIndex(xs, r[b]))
  }

  /** The elements of `xs` without repeats, as `[...new Set(xs)]` lists them:
      the set after inserting all but the last element, then the last one if
      it is new. */
  function Distinct(xs: seq<Text>): (r: seq<Text>)
    decreases |xs|
    ensures forall x :: x in r <==> x in xs
    ensures InFirstAppearanceOrder(r, xs)
  {
    if |xs| == 0 then []
    else
      var init, last := xs[..|xs| - 1], xs[|xs| - 1];
      var prev := Distinct(init);
      assert xs == init + [last];
      forall k | 0 <= k < |prev|
        ensures FirstIndex(xs, prev[k]) == FirstIndex(init, prev[k])
      {
        FirstIndexPrefix(xs, |xs| - 1, prev[k]);
      }
      if last in prev then prev
      else
        assert FirstIndex(xs, last) == |xs| - 1;
        prev + [last]
  }

  /** The names that are not keys of the field map, in their order. */
  function MissingNames(names: seq<Text>, fields: seq<Field>): (r: seq<Text>)
    decreases |names|
    ensures forall x :: x in r <==> x in names && x !in Keys(fields)
  {
    if |names| == 0 then []
    else (if names[0] in Keys(fields) then [] else [names[0]]) + MissingNames(names[1..], fields)
  }

  /** Dropping the present names keeps the order of first appearance. */
  lemma {:induction false} MissingNamesKeepsOrder(names: seq<Text>, xs: seq<Text>, fields: seq<Field>)
    requires InFirstAppearanceOrder(names, xs)
    ensures InFirstAppearanceOrder(MissingNames(names, fields), xs)
    decreases |names|
  {
    if |names| > 0 {
      var rest := MissingNames(names[1..], fields);
      assert InFirstAppearanceOrder(names[1..], xs);
      MissingNamesKeepsOrder(names[1..], xs, fields);
      forall k | 0 <= k < |rest|
        ensures FirstIndex(xs, names[0]) < FirstIndex(xs, rest[k])
      {
        assert rest[k] in names[1..];
        var b :| 0 <= b < |names[1..]| && names[1..][b] == rest[k];
        assert names[b + 1] == rest[k];
      }
    }
  }

  /** The failure of validation: the requested names that have no field. */
  datatype Error = MissingFields(names: seq<Text>)

  /** The fixed start of the error text, one literal in the source; written
      here as two pieces because the verifier does not establish that a
      literal this long is ASCII on its own. */
  const MessagePrefix: Text := Ascii("Invalid Merge Fields Provided.") + Ascii(" Missing fields: ")
  const NameSeparator: Text := Ascii(", ")
  const MessageEnd: Text := Ascii(".")

  /** The text of the thrown error. */
  function ErrorMessage(e: Error): Text {
    MessagePrefix + Join(e.names, NameSeparator) + MessageEnd
  }

  /** The text that is scanned: subject and body joined by one space. */
  function Template(body: Text, subject: Text): Text {
    subject + [Space] + body
  }

  /** The distinct requested names in order of first appearance. */
  function Requested(body: Text, subject: Text): seq<Text> {
    Distinct(Names(Template(body, subject)))
  }

  /** Validation as `validateMergeFields` performs it: every distinct
      requested name must be a key, otherwise one error names all those that
      are not. */
  function Validate(body: Text, subject: Text, fields: seq<Field>): (r: Outcome<Error>)
    ensures r.Fail? <==> exists x :: x in Names(Template(body, subject)) && x !in Keys(fields)
    ensures r.Fail? ==> forall x ::
      x in r.error.names <==> x in Names(Template(body, subject)) && x !in Keys(fields)
    ensures r.Fail? ==> InFirstAppearanceOrder(r.error.names, Names(Template(body, subject)))
  {
    var requested := Requested(body, subject);
    MissingNamesKeepsOrder(requested, Names(Template(body, subject)), fields);
    var missing := MissingNames(requested, fields);
    if |missing| > 0 then
      assert missing[0] in missing;
      Fail(MissingFields(missing))
    else Pass
  }

  /** Validation fails exactly when some field span of the template names no
      key, and the error then lists exactly the texts of such spans. */
  lemma ValidateByFieldSpans(body: Text, subject: Text, fields: seq<Field>)
    ensures var t := Template(body, subject);
      Validate(body, subject, fields).Fail? <==>
        exists i, j :: IsFieldSpan(t, i, j) && t[i..j] !in Keys(fields)
    ensures var t := Template(body, subject);
      Validate(body, subject, fields).Fail? ==> forall x ::
        x in Validate(body, subject, fields).error.names <==>
          x !in Keys(fields) && exists i, j :: IsFieldSpan(t, i, j) && t[i..j] == x
  {
    var t := Template(body, subject);
    var v := Validate(body, subject, fields);
    NamesAreFieldRuns(t);
    if v.Fail? {
      var x :| x in Names(t) && x !in Keys(fields);
      var i, j :| IsFieldSpan(t, i, j) && t[i..j] == x;
      assert IsFieldSpan(t, i, j) && t[i..j] !in Keys(fields);
    } else {
      forall i, j | IsFieldSpan(t, i, j)
        ensures t[i..j] in Keys(fields)
      {
        assert t[i..j] in Names(t);
      }
    }
  }

  /** With no `}` in subject or body nothing is requested, so any field map,
      the empty one included, passes. */
  lemma ValidateWithoutClosingBrace(body: Text, subject: Text, fields: seq<Field>)
    requires RightBrace !in subject && RightBrace !in body
    ensures Validate(body, subject, fields) == Pass
  {
    var t := Template(body, subject);
    NamesAreFieldRuns(t);
    assert RightBrace !in t;
  }

  /** The placeholder `{{key}}`. */
  function Token(key: Text): Text {
    [LeftBrace, LeftBrace] + key + [RightBrace, RightBrace]
  }

  /** A placeholder `{{key}}` with a non-empty brace-free key requests `key`. */
  lemma TokenIsRequested(s: Text, key: Text, p: nat)
    requires |key| > 0 && BraceFree(key) && OccursAt(s, Token(key), p)
    ensures key in Names(s)
  {
    var i, j := p + 2, p + 2 + |key|;
    var tok := Token(key);
    assert s[p..p + |tok|] == tok;
    forall q | 0 <= q < |key|
      ensures s[i + q] == key[q]
    {
      assert s[p + 2 + q] == tok[2 + q];
    }
    assert s[i..j] == key;
    assert s[i - 1] == LeftBrace;
    assert s[j] == RightBrace;
    assert IsFieldSpan(s, i, j);
    NamesAreFieldRuns(s);
  }

  /** Once validation passes, every well-formed placeholder in subject or body
      has a field. */
  lemma ValidatedPlaceholdersHaveFields(body: Text, subject: Text, fields: seq<Field>, key: Text, p: nat)
    requires Validate(body, subject, fields).Pass?
    requires |key| > 0 && BraceFree(key) && OccursAt(Template(body, subject), Token(key), p)
    ensures key in Keys(fields)
  {
    TokenIsRequested(Template(body, subject), key, p);
  }

  const Comma: Byte := 44

  /** The error text starts with the fixed prefix, ends with a full stop, and
      between them lists the missing names: splitting at ", " gives them
      back, as long as no name contains a comma. */
  lemma ErrorMessageListsNames(names: seq<Text>)
    requires |names| > 0
    requires forall k | 0 <= k < |names| :: Comma !in names[k]
    ensures var m := ErrorMessage(MissingFields(names));
      && m[..|MessagePrefix|] == MessagePrefix
      && m[|m| - 1] == MessageEnd[0]
      && SplitOn(m[|MessagePrefix|..|m| - 1], NameSeparator) == names
  {
    var n := |names|;
    var m := ErrorMessage(MissingFields(names));
    var joined := Join(names, NameSeparator);
    assert m[|MessagePrefix|..|m| - 1] == joined;
    assert NameSeparator[0] == Comma;
    assert names[..n - 1] + [names[n - 1]] == names;
    SplitJoin(names[..n - 1], names[n - 1], NameSeparator);
    NoSeparator(names[n - 1], NameSeparator);
  }

  // ---------------------------------------------------------------------------
  // Substitution
  // ---------------------------------------------------------------------------

  /** The replacement text of `String.prototype.replace` with a string
      pattern, per the GetSubstitution operation of ECMAScript: `$$` is a
      dollar sign, `$&` the matched text, `` $` `` the text before the match,
      `$'` the text after it; any other `$` stands for itself, since a
      string pattern has no capture groups. */
  function Expand(rep: Text, matched: Text, before: Text, after: Text): Text
    decreases |rep|
  {
    if |rep| == 0 then []
    else if rep[0] == Dollar && |rep| >= 2 && rep[1] == Dollar then
      [Dollar] + Expand(rep[2..], matched, before, after)
    else if rep[0] == Dollar && |rep| >= 2 && rep[1] == Ampersand then
      matched + Expand(rep[2..], matched, before, after)
    else if rep[0] == Dollar && |rep| >= 2 && rep[1] == Backtick then
      before + Expand(rep[2..], matched, before, after)
    else if rep[0] == Dollar && |rep| >= 2 && rep[1] == Quote then
      after + Expand(rep[2..], matched, before, after)
    else [rep[0]] + Expand(rep[1..], matched, before, after)
  }

  /** A replacement without `$` is inserted literally. */
  lemma {:induction false} ExpandLiteral(rep: Text, matched: Text, before: Text, after: Text)
    requires Dollar !in rep
    ensures Expand(rep, matched, before, after) == rep
    decreases |rep|
  {
    if |rep| > 0 {
      assert rep[0] != Dollar;
      assert Dollar !in rep[1..];
      ExpandLiteral(rep[1..], matched, before, after);
      assert [rep[0]] + rep[1..] == rep;
    }
  }

  /** `s.replace(pat, rep)` with a string pattern: only the first
      occurrence is replaced. */
  function ReplaceFirst(s: Text, pat: Text, rep: Text): Text {
    match IndexOf(s, pat)
    case None => s
    case Some(i) =>
      var before, after := s[..i], s[i + |pat|..];
      before + Expand(rep, pat, before, after) + after
  }

  /** A text without the pattern comes back unchanged. */
  lemma ReplaceFirstWithoutOccurrence(s: Text, pat: Text, rep: Text)
    requires forall j | 0 <= j :: !OccursAt(s, pat, j)
    ensures ReplaceFirst(s, pat, rep) == s
  {
    IndexOfFinds(s, pat);
  }

  /** The leftmost occurrence, and only it, is replaced by the literal value. */
  lemma ReplaceFirstAtFirstOccurrence(s: Text, pat: Text, rep: Text, i: nat)
    requires Dollar !in rep
    requires IsFirstOccurrence(s, pat, i)
    ensures ReplaceFirst(s, pat, rep) == s[..i] + rep + s[i + |pat|..]
  {
    IndexOfIsFirst(s, pat, i);
    ExpandLiteral(rep, pat, s[..i], s[i + |pat|..]);
  }

  /** An occurrence after the replaced one survives, shifted by the change
      in length that the expanded replacement brings. */
  lemma ReplaceFirstKeepsLater(s: Text, pat: Text, rep: Text, i: nat, j: nat)
    requires IsFirstOccurrence(s, pat, i)
    requires OccursAt(s, pat, j) && i + |pat| <= j
    ensures OccursAt(ReplaceFirst(s, pat, rep), pat,
                     j - |pat| + |Expand(rep, pat, s[..i], s[i + |pat|..])|)
  {
    IndexOfIsFirst(s, pat, i);
    var before, after := s[..i], s[i + |pat|..];
    var e := Expand(rep, pat, before, after);
    var r := ReplaceFirst(s, pat, rep);
    assert r == before + e + after;
    var d := j - |pat| + |e|;
    forall q | 0 <= q < |pat|
      ensures r[d + q] == pat[q]
    {
      assert r[d + q] == after[j - i - |pat| + q];
      assert s[j + q] == s[j..j + |pat|][q];
    }
  }

  /** The merged body and subject. */
  datatype Merged = Merged(body: Text, subject: Text)

  /** One entry's turn: the first `{{key}}` of the body, then of the subject,
      replaced by the value. */
  function ApplyField(m: Merged, f: Field): Merged {
    Merged(ReplaceFirst(m.body, Token(f.name), f.value),
           ReplaceFirst(m.subject, Token(f.name), f.value))
  }

  /** One entry replaces the leftmost `{{key}}` of the body and of the
      subject by its value and leaves the rest of both texts alone; a text
      without the placeholder is left as it is. */
  lemma ApplyFieldFirstOccurrence(m: Merged, f: Field)
    requires Dollar !in f.value
    ensures var tok, r := Token(f.name), ApplyField(m, f);
      && (forall i | IsFirstOccurrence(m.body, tok, i) ::
            r.body == m.body[..i] + f.value + m.body[i + |tok|..])
      && ((forall j | 0 <= j :: !OccursAt(m.body, tok, j)) ==> r.body == m.body)
      && (forall i | IsFirstOccurrence(m.subject, tok, i) ::
            r.subject == m.subject[..i] + f.value + m.subject[i + |tok|..])
      && ((forall j | 0 <= j :: !OccursAt(m.subject, tok, j)) ==> r.subject == m.subject)
  {
    var tok := Token(f.name);
    forall i | IsFirstOccurrence(m.body, tok, i)
      ensures ApplyField(m, f).body == m.body[..i] + f.value + m.body[i + |tok|..]
    {
      ReplaceFirstAtFirstOccurrence(m.body, tok, f.value, i);
    }
    forall i | IsFirstOccurrence(m.subject, tok, i)
      ensures ApplyField(m, f).subject == m.subject[..i] + f.value + m.subject[i + |tok|..]
    {
      ReplaceFirstAtFirstOccurrence(m.subject, tok, f.value, i);
    }
    if forall j | 0 <= j :: !OccursAt(m.body, tok, j) {
      ReplaceFirstWithoutOccurrence(m.body, tok, f.value);
    }
    if forall j | 0 <= j :: !OccursAt(m.subject, tok, j) {
      ReplaceFirstWithoutOccurrence(m.subject, tok, f.value);
    }
  }

  /** The entries applied in order, each to the result of the ones before. */
  function SubstituteAll(m: Merged, fields: seq<Field>): Merged
    decreases |fields|
  {
    if |fields| == 0 then m else SubstituteAll(ApplyField(m, fields[0]), fields[1..])
  }

  /** Substitution is sequential: the entries of a longer map act on what the
      earlier entries left. */
  lemma {:induction false} SubstituteAllSequential(m: Merged, first: seq<Field>, second: seq<Field>)
    ensures SubstituteAll(m, first + second) == SubstituteAll(SubstituteAll(m, first), second)
    decreases |first|
  {
    if |first| > 0 {
      assert (first + second)[0] == first[0];
      assert (first + second)[1..] == first[1..] + second;
      SubstituteAllSequential(ApplyField(m, first[0]), first[1..], second);
    } else {
      assert first + second == second;
    }
  }

  /** No placeholder of any key in body or subject: nothing changes. */
  lemma {:induction false} SubstituteAllWithoutPlaceholders(m: Merged, fields: seq<Field>)
    requires forall k, j | 0 <= k < |fields| :: !OccursAt(m.body, Token(fields[k].name), j)
    requires forall k, j | 0 <= k < |fields| :: !OccursAt(m.subject, Token(fields[k].name), j)
    ensures SubstituteAll(m, fields) == m
    decreases |fields|
  {
    if |fields| > 0 {
      var tok := Token(fields[0].name);
      ReplaceFirstWithoutOccurrence(m.body, tok, fields[0].value);
      ReplaceFirstWithoutOccurrence(m.subject, tok, fields[0].value);
      assert ApplyField(m, fields[0]) == m;
      SubstituteAllWithoutPlaceholders(m, fields[1..]);
    }
  }

  /** A placeholder written twice is replaced once: the second copy stays. */
  lemma RepeatedPlaceholderKeepsSecond(key: Text, value: Text, subject: Text)
    requires Dollar !in value
    ensures SubstituteAll(Merged(Token(key) + Token(key), subject), [Field(key, value)]).body
      == value + Token(key)
  {
    var tok := Token(key);
    var body := tok + tok;
    assert body[0..|tok|] == tok;
    ReplaceFirstAtFirstOccurrence(body, tok, value, 0);
    assert body[|tok|..] == tok;
    assert SubstituteAll(Merged(body, subject), [Field(key, value)])
      == ApplyField(Merged(body, subject), Field(key, value));
  }

  /** `populateMergeFields`: validation first; on success the entries are
      substituted in order. */
  function Populate(body: Text, subject: Text, fields: seq<Field>): (r: Result<Merged, Error>)
    ensures r.Failure? <==> exists x :: x in Names(Template(body, subject)) && x !in Keys(fields)
    ensures r.Failure? ==> r.error == Validate(body, subject, fields).error
    ensures r.Success? ==> r.value == SubstituteAll(Merged(body, subject), fields)
  {
    match Validate(body, subject, fields)
    case Fail(e) => Failure(e)
    case Pass => Success(SubstituteAll(Merged(body, subject), fields))
  }
}
