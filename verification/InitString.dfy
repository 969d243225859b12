/** The scanners that the BBCM_INITSTRING_PARSE and BBDM_INITSTRING_PARSE macros of src/BBCM-C.h and
    src/BBDM-C.h expand to: `name = value` fields, handed over one by one. */
module InitString {
  import opened Wrappers
  import opened Sequences

  /** BBCM knows both quotes and half of an escape character; BBDM knows double quotes only. */
  datatype Dialect = BBCM | BBDM

  /** isspace, isalpha and isalnum of the C locale. */
  predicate IsSpace(c: char) {
    c == ' ' || '\t' <= c <= '\r'
  }

  predicate IsAlpha(c: char) {
    'A' <= c <= 'Z' || 'a' <= c <= 'z' || c == '_'
  }

  predicate IsAlnum(c: char) {
    IsAlpha(c) || '0' <= c <= '9'
  }

  predicate IsText(c: char) {
    !IsSpace(c)
  }

  predicate IsQuote(d: Dialect, c: char) {
    c == '"' || (d.BBCM? && c == '\'')
  }

  /** A character of a C string: the terminating NUL may be read, nothing behind it. */
  function At(s: string, p: nat): char
    requires p <= |s|
  {
    if p < |s| then s[p] else '\0'
  }

  /** A field handed over: its name, and where sscanf starts to read its value. */
  datatype Hit = Hit(name: string, valueAt: nat)

  // ---------------------------------------------------------------------------
  // What the scanners do
  // ---------------------------------------------------------------------------

  /** The first position from p on that does not hold a character of the kind. */
  function Skip(s: string, p: nat, kind: char -> bool): (q: nat)
    requires p <= |s|
    ensures p <= q <= |s| && (q < |s| ==> !kind(s[q]))
    ensures forall i | p <= i < q :: kind(s[i])
    decreases |s| - p
  {
    if p < |s| && kind(s[p]) then Skip(s, p + 1, kind) else p
  }

  function TokenEnd(s: string, p: nat): (q: nat)
    requires p <= |s|
    ensures p <= q <= |s|
  {
    if IsAlpha(At(s, p)) then Skip(s, p, IsAlnum) else p
  }

  /** Where the loop over a quoted value stops: at the closing quote, at the end, or in BBCM behind a
      backslash, whatever is there. */
  function QuotedEnd(d: Dialect, s: string, p: nat, quote: char, former: char): (q: nat)
    requires p <= |s|
    ensures p <= q <= |s|
    decreases |s| - p
  {
    if p < |s| && s[p] != quote && (d.BBCM? ==> former != '\\') then QuotedEnd(d, s, p + 1, quote, s[p]) else p
  }

  /** Where the scan goes on after a value; after an unterminated quote this is behind the NUL. */
  function ValueEnd(d: Dialect, s: string, p: nat): (q: nat)
    requires p <= |s|
    ensures p <= q <= |s| + 1
  {
    if IsQuote(d, At(s, p)) then QuotedEnd(d, s, p + 1, s[p], s[p]) + 1 else Skip(s, p, IsText)
  }

  /** One round of the outer loop: the field handed over, if any, and the next position. */
  function Round(d: Dialect, s: string, p: nat): (r: (Option<Hit>, nat))
    requires p < |s|
    ensures p < r.1 <= |s| + 1
    ensures r.0.Some? ==> p < r.0.value.valueAt <= |s| && r.0.value.valueAt <= r.1
  {
    var a := Skip(s, p, IsSpace);
    var b := TokenEnd(s, a);
    var c := Skip(s, b, IsSpace);
    var equalFound := a < b && At(s, c) == '=';
    var v := Skip(s, if equalFound then c + 1 else c, IsSpace);
    (if equalFound then Some(Hit(s[a..b], v)) else None,
     if a == b || equalFound then ValueEnd(d, s, v) else v)
  }

  /** All rounds: every field that is handed over. */
  function Scan(d: Dialect, s: string, p: nat): seq<Hit>
    decreases |s| + 1 - p
  {
    if p >= |s| then []
    else
      var (hit, next) := Round(d, s, p);
      (if hit.Some? then [hit.value] else []) + Scan(d, s, next)
  }

  // ---------------------------------------------------------------------------
  // The macros' loops
  // ---------------------------------------------------------------------------

  method SkipLoop(s: string, currPos: nat, ch: char, kind: char -> bool) returns (pos: nat, ch': char)
    requires currPos <= |s| && ch == At(s, currPos)
    ensures pos == Skip(s, currPos, kind) && ch' == At(s, pos)
  {
    pos, ch' := currPos, ch;
    while pos < |s| && kind(ch')
      invariant pos <= |s| && ch' == At(s, pos)
      invariant Skip(s, pos, kind) == Skip(s, currPos, kind)
    {
      pos := pos + 1;
      ch' := At(s, pos);
    }
  }

  /** BBCM's loop over a quoted value, from its opening quote. */
  method SkipQuotedBBCM(s: string, currPos: nat) returns (pos: nat)
    requires currPos < |s| && IsQuote(BBCM, s[currPos])
    ensures pos == ValueEnd(BBCM, s, currPos)
  {
    var strDelimiter, formerCh := s[currPos], s[currPos];
    pos := currPos + 1;
    var ch := At(s, pos);
    while pos < |s| && ch != strDelimiter && formerCh != '\\'
      invariant pos <= |s| && ch == At(s, pos)
      invariant QuotedEnd(BBCM, s, pos, strDelimiter, formerCh)
             == QuotedEnd(BBCM, s, currPos + 1, strDelimiter, strDelimiter)
    {
      pos := pos + 1;
      if formerCh == '\\' && ch == '\\' {
        formerCh := ' ';
      } else {
        formerCh := ch;
      }
      ch := At(s, pos);
    }
    pos := pos + 1;
  }

  /** BBDM's. */
  method SkipQuotedBBDM(s: string, currPos: nat) returns (pos: nat)
    requires currPos < |s| && IsQuote(BBDM, s[currPos])
    ensures pos == ValueEnd(BBDM, s, currPos)
  {
    pos := currPos + 1;
    var ch := At(s, pos);
    ghost var former := '"';
    while pos < |s| && ch != '"'
      invariant pos <= |s| && ch == At(s, pos)
      invariant QuotedEnd(BBDM, s, pos, '"', former) == QuotedEnd(BBDM, s, currPos + 1, '"', '"')
    {
      former := ch;
      pos := pos + 1;
      ch := At(s, pos);
    }
    pos := pos + 1;
  }

  method SkipValue(d: Dialect, s: string, currPos: nat, ch: char) returns (pos: nat)
    requires currPos <= |s| && ch == At(s, currPos)
    ensures pos == ValueEnd(d, s, currPos)
  {
    if IsQuote(d, ch) {
      if d.BBCM? {
        pos := SkipQuotedBBCM(s, currPos);
      } else {
        pos := SkipQuotedBBDM(s, currPos);
      }
    } else {
      var end, _ := SkipLoop(s, currPos, ch, IsText);
      pos := end;
    }
  }

  /** One round of the outer loop. */
  method ParseRound(d: Dialect, s: string, start: nat) returns (hit: Option<Hit>, currPos: nat)
    requires start < |s|
    ensures (hit, currPos) == Round(d, s, start)
  {
    hide Skip, ValueEnd, IsSpace, IsAlpha, IsAlnum, IsText, IsQuote;
    hit := None;
    currPos := start;
    var ch := At(s, currPos);
    currPos, ch := SkipLoop(s, currPos, ch, IsSpace);
    var tokenPos := currPos;
    if IsAlpha(ch) {
      currPos, ch := SkipLoop(s, currPos, ch, IsAlnum);
    }
    var tokenLen := currPos - tokenPos;
    currPos, ch := SkipLoop(s, currPos, ch, IsSpace);
    var equalFound := tokenLen > 0 && ch == '=';
    if equalFound {
      currPos := currPos + 1;
      ch := At(s, currPos);
    }
    currPos, ch := SkipLoop(s, currPos, ch, IsSpace);
    if tokenLen > 0 && equalFound {
      hit := Some(Hit(s[tokenPos..tokenPos + tokenLen], currPos));
    }
    if tokenLen == 0 || equalFound {
      currPos := SkipValue(d, s, currPos, ch);
    }
  }

  /** The whole scan; `hits` are the calls of the field handlers. */
  method Parse(d: Dialect, initString: Option<string>) returns (hits: seq<Hit>)
    ensures hits == if initString.Some? then Scan(d, initString.value, 0) else []
  {
    hits := [];
    if initString.None? {
      return;
    }
    hide Scan;
    var s := initString.value;
    var currPos := 0;
    while currPos < |s|
      invariant currPos <= |s| + 1
      invariant hits + Scan(d, s, currPos) == Scan(d, s, 0)
      decreases |s| + 1 - currPos
    {
      ScanRound(d, s, currPos);
      hide Round;
      var hit, next := ParseRound(d, s, currPos);
      if hit.Some? {
        Associate(hits, [hit.value], Scan(d, s, next));
        hits := hits + [hit.value];
      }
      currPos := next;
    }
    ScanRound(d, s, currPos);
  }

  lemma ScanRound(d: Dialect, s: string, p: nat)
    requires p <= |s| + 1
    ensures p >= |s| ==> Scan(d, s, p) == []
    ensures p < |s| ==> var (hit, next) := Round(d, s, p);
              Scan(d, s, p) == if hit.Some? then [hit.value] + Scan(d, s, next) else Scan(d, s, next)
  {
    hide Round;
  }

  // ---------------------------------------------------------------------------
  // Which handler gets a field
  // ---------------------------------------------------------------------------

  /** The comparison in INITFIELD_GET: BBDM compares only as many characters as the token has. */
  predicate Takes(d: Dialect, fieldName: string, token: string) {
    (d.BBCM? ==> |fieldName| == |token|) && token <= fieldName
  }

  /** The first of the declared fields that takes the token. */
  function Handler(d: Dialect, declared: seq<string>, token: string): (r: Option<nat>)
    ensures r.Some? ==> r.value < |declared|
  {
    if declared == [] then None
    else if Takes(d, declared[0], token) then Some(0)
    else
      var r := Handler(d, declared[1..], token);
      if r.Some? then Some(r.value + 1) else None
  }

  /** In BBCM a field goes to the first handler declared with exactly its name, if there is one. */
  lemma {:induction false} ExactHandler(declared: seq<string>, token: string)
    ensures var r := Handler(BBCM, declared, token);
            if r.Some? then declared[r.value] == token && token !in declared[..r.value] else token !in declared
  {
    if declared != [] && !Takes(BBCM, declared[0], token) {
      ExactHandler(declared[1..], token);
      var r := Handler(BBCM, declared, token);
      assert r.Some? ==> declared[..r.value] == [declared[0]] + declared[1..][..r.value - 1];
    }
  }

  /** BBDM does the same just when no name that merely starts with the token comes too early. */
  lemma {:induction false} PrefixHandler(declared: seq<string>, token: string)
    ensures Handler(BBDM, declared, token) == Handler(BBCM, declared, token)
        <==> forall i | 0 <= i < |declared| && token < declared[i] :: token in declared[..i]
  {
    if declared != [] {
      var rest := declared[1..];
      if declared[0] == token {
        assert forall i | 0 < i < |declared| :: declared[..i][0] == token;
      } else if token < declared[0] {
        assert token !in declared[..0];
      } else {
        PrefixHandler(rest, token);
        assert forall i | 0 < i < |declared| :: declared[..i] == [declared[0]] + rest[..i - 1];
        assert forall i | 0 <= i < |rest| :: rest[i] == declared[i + 1];
      }
    }
  }

  /** An abbreviated name: BBDM takes it for the field, BBCM does not. */
  lemma AbbreviationTaken()
    ensures Handler(BBDM, ["length"], "len") == Some(0) && Handler(BBCM, ["length"], "len") == None
  {
  }

  // ---------------------------------------------------------------------------
  // What a round does
  // ---------------------------------------------------------------------------

  /** White space: the blank and the five control characters from tab to carriage return. */
  predicate Spaces(s: string) {
    forall i | 0 <= i < |s| :: s[i] == ' ' || '\t' <= s[i] <= '\r'
  }

  /** Letters, digits and underscores, and no digit in front. */
  predicate Name(s: string) {
    && s != "" && !('0' <= s[0] <= '9')
    && forall i | 0 <= i < |s| :: 'A' <= s[i] <= 'Z' || 'a' <= s[i] <= 'z' || '0' <= s[i] <= '9' || s[i] == '_'
  }

  lemma SkipIs(s: string, p: nat, kind: char -> bool, q: nat)
    requires p <= q <= |s| && (forall i | p <= i < q :: kind(s[i])) && (q < |s| ==> !kind(s[q]))
    ensures Skip(s, p, kind) == q
  {
  }

  lemma Spacing(s: string, p: nat, q: nat)
    requires p <= q <= |s|
    ensures Spaces(s[p..q]) ==> forall i | p <= i < q :: IsSpace(s[i])
    ensures q < |s| && !Spaces(s[q..q + 1]) ==> !IsSpace(s[q])
    ensures Spaces(s[p..q]) && (q < |s| ==> !Spaces(s[q..q + 1])) ==> Skip(s, p, IsSpace) == q
  {
    if Spaces(s[p..q]) {
      assert forall i | p <= i < q :: s[p..q][i - p] == s[i];
      if q < |s| ==> !Spaces(s[q..q + 1]) {
        SkipIs(s, p, IsSpace, q);
      }
    }
  }

  lemma Naming(s: string, a: nat, b: nat)
    requires a < b <= |s| && Name(s[a..b]) && (b < |s| ==> !Name(s[a..b + 1]))
    ensures !Spaces(s[a..a + 1]) && TokenEnd(s, a) == b
  {
    assert forall i | a <= i < b :: s[a..b][i - a] == s[i];
    assert b < |s| ==> s[a..b + 1] == s[a..b] + [s[b]];
    SkipIs(s, a, IsAlnum, b);
    assert s[a..a + 1][0] == s[a];
  }

  lemma EqualsSign(s: string, a: nat, b: nat, c: nat)
    requires a < b <= c < |s| && Spaces(s[b..c]) && s[c] == '='
    ensures !Name(s[a..b + 1]) && !Spaces(s[c..c + 1])
  {
    assert s[a..b + 1][b - a] == s[b] && s[c..c + 1][0] == s[c];
    assert b < c ==> s[b..c][0] == s[b];
  }

  /** One round on white space, a name, white space, an equals sign and white space: the field is handed over
      and its value passed over. */
  lemma RoundOnField(d: Dialect, s: string, p: nat, a: nat, b: nat, c: nat, v: nat)
    requires p <= a < b <= c < v <= |s| && Spaces(s[p..a]) && Name(s[a..b]) && Spaces(s[b..c]) && s[c] == '='
    requires Spaces(s[c + 1..v]) && (v < |s| ==> !Spaces(s[v..v + 1]))
    ensures Round(d, s, p) == (Some(Hit(s[a..b], v)), ValueEnd(d, s, v))
  {
    hide Skip, ValueEnd, TokenEnd, Spaces, Name;
    EqualsSign(s, a, b, c);
    Naming(s, a, b);
    Spacing(s, p, a);
    Spacing(s, b, c);
    Spacing(s, c + 1, v);
  }

  /** On a name without an equals sign: nothing is handed over, and what follows is looked at afresh. */
  lemma RoundOnWord(d: Dialect, s: string, p: nat, a: nat, b: nat, v: nat)
    requires p <= a < b <= v <= |s| && Spaces(s[p..a]) && Name(s[a..b]) && (b < |s| ==> !Name(s[a..b + 1]))
    requires Spaces(s[b..v]) && (v < |s| ==> s[v] != '=' && !Spaces(s[v..v + 1]))
    ensures Round(d, s, p) == (None, v)
  {
    hide Skip, ValueEnd, TokenEnd, Spaces, Name;
    Naming(s, a, b);
    Spacing(s, p, a);
    Spacing(s, b, v);
  }

  /** On anything else that is not white space: nothing is handed over, and it is passed over like a value. */
  lemma RoundOnStray(d: Dialect, s: string, p: nat, a: nat)
    requires p <= a < |s| && Spaces(s[p..a]) && !Spaces(s[a..a + 1]) && !Name(s[a..a + 1])
    ensures Round(d, s, p) == (None, ValueEnd(d, s, a))
  {
    hide ValueEnd;
    Spacing(s, p, a);
    assert s[a..a + 1] == [s[a]];
    assert TokenEnd(s, a) == a;
    SkipIs(s, a, IsSpace, a);
  }

  // ---------------------------------------------------------------------------
  // Quoted values
  // ---------------------------------------------------------------------------

  /** The value quoted at p can end at i: there is the end, the same quote, or in BBCM a backslash in front. */
  predicate Stops(d: Dialect, s: string, p: nat, i: nat)
    requires p < i <= |s|
  {
    i == |s| || s[i] == s[p] || (d.BBCM? && p + 1 < i && s[i - 1] == '\\')
  }

  lemma {:induction false} QuotedEndIs(d: Dialect, s: string, p: nat, at: nat, e: nat)
    requires p < at <= e <= |s| && s[p] != '\\' && forall i | p < i < at :: !Stops(d, s, p, i)
    ensures QuotedEnd(d, s, at, s[p], s[at - 1]) == e
        <==> Stops(d, s, p, e) && forall i | at <= i < e :: !Stops(d, s, p, i)
    decreases |s| - at
  {
    if Stops(d, s, p, at) {
      assert at < e ==> !forall i | at <= i < e :: !Stops(d, s, p, i);
    } else if at < e {
      QuotedEndIs(d, s, p, at + 1, e);
    }
  }

  /** Where a value ends: one that starts with a quote, behind the next such quote or, in BBCM, behind the
      character that follows a backslash, whichever comes first, or behind the NUL; any other at white space
      or at the end. */
  lemma ValueEndExact(d: Dialect, s: string, p: nat, e: nat)
    requires p < |s|
    ensures ValueEnd(d, s, p) == e <==>
            if s[p] == '"' || (d.BBCM? && s[p] == '\'') then
              p < e - 1 <= |s| && Stops(d, s, p, e - 1) && forall i | p < i < e - 1 :: !Stops(d, s, p, i)
            else
              && p <= e <= |s| && (forall i | p <= i < e :: s[i] != ' ' && !('\t' <= s[i] <= '\r'))
              && (e < |s| ==> s[e] == ' ' || '\t' <= s[e] <= '\r')
  {
    if IsQuote(d, s[p]) {
      if p < e - 1 <= |s| {
        QuotedEndIs(d, s, p, p + 1, e - 1);
      }
    } else if p <= e <= |s| && (forall i | p <= i < e :: IsText(s[i])) && (e < |s| ==> !IsText(s[e])) {
      SkipIs(s, p, IsText, e);
    }
  }

  lemma StopsNowhere(d: Dialect, s: string, p: nat, e: nat)
    requires p < e <= |s|
    ensures (forall i | p < i < e :: !Stops(d, s, p, i))
        <==> (forall i | p < i < e :: s[i] != s[p]) && (d.BBCM? ==> forall i | p < i < e - 1 :: s[i] != '\\')
  {
    if i :| p < i < e && s[i] == s[p] {
      assert Stops(d, s, p, i);
    } else if i :| p < i < e - 1 && s[i] == '\\' {
      assert d.BBCM? ==> Stops(d, s, p, i + 1);
    }
  }

  lemma Absent(s: string, p: nat, e: nat, c: char)
    requires p <= e <= |s|
    ensures c !in s[p..e] <==> forall i | p <= i < e :: s[i] != c
  {
    if i :| p <= i < e && s[i] == c {
      assert s[p..e][i - p] == c;
    }
  }

  predicate Closes(d: Dialect, quote: char, text: string) {
    quote !in text && (d.BBCM? && text != "" ==> '\\' !in text[..|text| - 1])
  }

  /** The scan goes on right behind a quoted value if and only if the text has no such quote in it and, in
      BBCM, no backslash except as its last character: there a backslash ends the value, with the character
      behind it. */
  lemma QuotedExact(d: Dialect, before: string, quote: char, text: string, after: string)
    requires quote == '"' || (d.BBCM? && quote == '\'')
    ensures ValueEnd(d, before + [quote] + text + [quote] + after, |before|) == |before| + |text| + 2
        <==> Closes(d, quote, text)
  {
    var s := before + [quote] + text + [quote] + after;
    var p, e := |before| + 1, |before| + 1 + |text|;
    QuotedEndIs(d, s, p - 1, p, e);
    assert s[p..e] == text;
    Absent(s, p, e, quote);
    if text != "" {
      Absent(s, p, e - 1, '\\');
      assert s[p..e - 1] == text[..|text| - 1];
    }
    StopsNowhere(d, s, p - 1, e);
  }

  /** A digit belongs to a name. */
  lemma DigitsInNames(d: Dialect, c: char)
    requires '0' <= c <= '9'
    ensures Scan(d, ['x', c] + "=5", 0) == [Hit(['x', c], 3)]
  {
    hide Scan, ValueEnd, Round;
    var s := ['x', c] + "=5";
    assert s[0..2] == ['x', c] && s[3..4][0] == '5';
    RoundOnField(d, s, 0, 0, 2, 2, 3);
    ValueEndExact(d, s, 3, 4);
    ScanRound(d, s, 0);
    ScanRound(d, s, 4);
  }

  lemma OneField(d: Dialect, s: string, p: nat, a: nat, e: nat)
    requires p <= a <= p + 1 && a + 2 < |s| && (p < a ==> s[p] == ' ')
    requires 'a' <= s[a] <= 'z' && s[a + 1] == '=' && s[a + 2] in "'\""
    requires ValueEnd(d, s, a + 2) == e
    ensures e <= |s| + 1 && Scan(d, s, p) == [Hit([s[a]], a + 2)] + if e < |s| then Scan(d, s, e) else []
  {
    hide Scan, ValueEnd, Round;
    assert s[a..a + 1] == [s[a]] && s[a + 2..a + 3] == [s[a + 2]];
    RoundOnField(d, s, p, a, a + 1, a + 1, a + 2);
    ScanRound(d, s, p);
    ScanRound(d, s, e);
  }

  /** A single quote quotes in BBCM only. */
  lemma SingleQuotes(d: Dialect)
    ensures Scan(d, "a='b c='", 0) == if d.BBCM? then [Hit("a", 2)] else [Hit("a", 2), Hit("c", 7)]
  {
    hide Scan, ValueEnd, Round;
    var s := "a='b c='";
    if d.BBCM? {
      ValueEndExact(d, s, 2, 8);
      OneField(d, s, 0, 0, 8);
    } else {
      ValueEndExact(d, s, 2, 4);
      OneField(d, s, 0, 0, 4);
      ValueEndExact(d, s, 7, 8);
      OneField(d, s, 4, 5, 8);
    }
  }

  /** A backslash ends a quoted value in BBCM only, with the character behind it. */
  lemma Backslashes(d: Dialect)
    ensures Scan(d, "a=\"\\x b=\"", 0) == if d.BBCM? then [Hit("a", 2), Hit("b", 8)] else [Hit("a", 2)]
  {
    hide Scan, ValueEnd, Round;
    var s := "a=\"\\x b=\"";
    if d.BBCM? {
      ValueEndExact(d, s, 2, 5);
      OneField(d, s, 0, 0, 5);
      ValueEndExact(d, s, 8, 10);
      OneField(d, s, 5, 6, 10);
    } else {
      ValueEndExact(d, s, 2, 9);
      OneField(d, s, 0, 0, 9);
    }
  }

  // ---------------------------------------------------------------------------
  // Writing fields, and scanning them
  // ---------------------------------------------------------------------------

  datatype Value = Bare(text: string) | Quoted(quote: char, text: string)

  /** `name = value`, with the white space in front of it and on both sides of the equals sign. */
  datatype Field = Field(lead: string, name: string, before: string, after: string, value: Value)

  /** A value is a C string. Without quotes it is not empty, has no white space and does not start with a quote. */
  predicate Writable(d: Dialect, v: Value) {
    '\0' !in v.text &&
    match v
    case Bare(t) =>
      && t != "" && t[0] != '"' && (d.BBCM? ==> t[0] != '\'')
      && forall i | 0 <= i < |t| :: t[i] != ' ' && !('\t' <= t[i] <= '\r')
    case Quoted(q, t) => (q == '"' || (d.BBCM? && q == '\'')) && Closes(d, q, t)
  }

  predicate WellFormed(d: Dialect, f: Field) {
    Spaces(f.lead) && Name(f.name) && Spaces(f.before) && Spaces(f.after) && Writable(d, f.value)
  }

  /** What may follow a value at once: anything behind a closing quote, white space or the end otherwise. */
  predicate Follows(v: Value, rest: string) {
    v.Bare? && rest != "" ==> rest[0] == ' ' || '\t' <= rest[0] <= '\r'
  }

  /** All fields are well-formed, and a value without quotes is followed by white space or the end. */
  predicate AllWellFormed(d: Dialect, fields: seq<Field>, tail: string) {
    if fields == [] then Spaces(tail)
    else
      && WellFormed(d, fields[0]) && AllWellFormed(d, fields[1..], tail)
      && Follows(fields[0].value, RenderAll(fields[1..], tail))
  }

  function Text(v: Value): string {
    if v.Bare? then v.text else [v.quote] + v.text + [v.quote]
  }

  function Head(f: Field): string {
    f.lead + f.name + f.before + "=" + f.after
  }

  function RenderAll(fields: seq<Field>, tail: string): string {
    if fields == [] then tail else Head(fields[0]) + Text(fields[0].value) + RenderAll(fields[1..], tail)
  }

  /** The fields' names in order, each with the place where its value starts. */
  function Hits(fields: seq<Field>, p: nat): seq<Hit> {
    if fields == [] then []
    else
      var f := fields[0];
      [Hit(f.name, p + |Head(f)|)] + Hits(fields[1..], p + |Head(f)| + |Text(f.value)|)
  }

  /** What is written is a C string. */
  lemma {:induction false} RenderedIsCString(d: Dialect, fields: seq<Field>, tail: string)
    requires AllWellFormed(d, fields, tail)
    ensures '\0' !in RenderAll(fields, tail)
  {
    if fields != [] {
      RenderedIsCString(d, fields[1..], tail);
      HeadIsCString(d, fields[0]);
    }
  }

  lemma HeadIsCString(d: Dialect, f: Field)
    requires WellFormed(d, f)
    ensures '\0' !in Head(f) && '\0' !in Text(f.value)
  {
    assert forall c <- f.lead + f.before + f.after :: IsSpace(c);
    assert forall c <- f.name :: IsAlnum(c);
  }

  lemma EndOfBare(d: Dialect, before: string, text: string, rest: string)
    requires Writable(d, Bare(text)) && Follows(Bare(text), rest)
    ensures var s := before + text + rest; var v := |before|;
            v < |s| && !Spaces(s[v..v + 1]) && ValueEnd(d, s, v) == v + |text|
  {
    hide Skip;
    var s, v := before + text + rest, |before|;
    assert forall i | v <= i < v + |text| :: s[i] == text[i - v];
    assert s[v..v + 1][0] == text[0];
    SkipIs(s, v, IsText, v + |text|);
  }

  lemma EndOfValue(d: Dialect, before: string, value: Value, rest: string)
    requires Writable(d, value) && Follows(value, rest)
    ensures var s := before + Text(value) + rest; var v := |before|;
            v < |s| && !Spaces(s[v..v + 1]) && ValueEnd(d, s, v) == v + |Text(value)|
  {
    hide ValueEnd, Closes;
    var s, v := before + Text(value) + rest, |before|;
    if value.Bare? {
      EndOfBare(d, before, value.text, rest);
    } else {
      QuotedExact(d, before, value.quote, value.text, rest);
      assert s[v..v + 1][0] == value.quote;
      assert s == before + [value.quote] + value.text + [value.quote] + rest;
    }
  }

  lemma Pieces(done: string, lead: string, name: string, before: string, after: string, rest: string)
    ensures var s := done + (lead + name + before + "=" + after) + rest;
            var p := |done|; var a := p + |lead|; var b := a + |name|; var c := b + |before|; var v := c + 1 + |after|;
            v + |rest| == |s| && s[p..a] == lead && s[a..b] == name && s[b..c] == before && s[c] == '=' && s[c + 1..v] == after
  {
  }

  lemma RoundOnRendered(d: Dialect, done: string, f: Field, rest: string)
    requires WellFormed(d, f) && Follows(f.value, rest)
    ensures var s, v := done + Head(f) + Text(f.value) + rest, |done| + |Head(f)|;
            |done| < |s| && Round(d, s, |done|) == (Some(Hit(f.name, v)), v + |Text(f.value)|)
  {
    hide Round, ValueEnd, Writable, Follows, Spaces, Name, IsSpace, Text;
    var s := done + Head(f) + Text(f.value) + rest;
    EndOfValue(d, done + Head(f), f.value, rest);
    assert s == done + Head(f) + (Text(f.value) + rest);
    Pieces(done, f.lead, f.name, f.before, f.after, Text(f.value) + rest);
    var a := |done| + |f.lead|;
    var b := a + |f.name|;
    var c := b + |f.before|;
    assert a < b by { assert f.name != "" by { NameNotEmpty(f.name); } }
    RoundOnField(d, s, |done|, a, b, c, c + 1 + |f.after|);
  }

  lemma NameNotEmpty(s: string)
    requires Name(s)
    ensures s != ""
  {
  }

  lemma NothingInSpaces(d: Dialect, done: string, tail: string)
    requires Spaces(tail)
    ensures Scan(d, done + tail, |done|) == []
  {
    var s := done + tail;
    if tail != "" {
      assert forall i | |done| <= i < |s| :: s[i] == tail[i - |done|];
      SkipIs(s, |done|, IsSpace, |s|);
      assert Round(d, s, |done|) == (None, |s|);
    }
  }

  lemma NoFields(d: Dialect, done: string, tail: string)
    requires AllWellFormed(d, [], tail)
    ensures Scan(d, done + RenderAll([], tail), |done|) == Hits([], |done|)
  {
    NothingInSpaces(d, done, tail);
  }

  lemma FirstField(d: Dialect, fields: seq<Field>, tail: string, p: nat)
    requires fields != [] && AllWellFormed(d, fields, tail)
    ensures var f, rest := fields[0], RenderAll(fields[1..], tail);
            && WellFormed(d, f) && AllWellFormed(d, fields[1..], tail) && Follows(f.value, rest)
            && RenderAll(fields, tail) == Head(f) + Text(f.value) + rest
            && Hits(fields, p) == [Hit(f.name, p + |Head(f)|)] + Hits(fields[1..], p + |Head(f)| + |Text(f.value)|)
  {
    hide WellFormed, Follows, Head, Text;
  }

  lemma Regroup(a: string, b: string, c: string, d: string)
    ensures a + (b + c + d) == a + b + c + d
    ensures |a + b + c| == |a| + |b| + |c|
  {
  }

  /** Round trip: scanning what was written hands over exactly the fields written, in order, each with the
      place where its value starts. */
  lemma {:induction false} ScanRendered(d: Dialect, done: string, fields: seq<Field>, tail: string)
    requires AllWellFormed(d, fields, tail)
    ensures Scan(d, done + RenderAll(fields, tail), |done|) == Hits(fields, |done|)
    decreases |fields|
  {
    hide *;
    if fields == [] {
      NoFields(d, done, tail);
    } else {
      var f, rest := fields[0], RenderAll(fields[1..], tail);
      var done' := done + Head(f) + Text(f.value);
      FirstField(d, fields, tail, |done|);
      Regroup(done, Head(f), Text(f.value), rest);
      RoundOnRendered(d, done, f, rest);
      ScanRendered(d, done', fields[1..], tail);
      ScanRound(d, done' + rest, |done|);
    }
  }
}
