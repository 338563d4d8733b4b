/**
 * The address check of the compose view: `IsValidEmail` and the grammar
 *
 *     ^([\w.\-]+)@([\w\-]+)((\.(\w){2,3})+)$
 *
 * The grammar is given twice: `MatchesEmailPattern` reads the regular
 * expression as written (one split point per group, the repetition
 * `(\.\w{2,3})+` as "one label, then the end or more labels"), and
 * `Recognises` is a hand-rolled scanner that reads the string once, left to
 * right. `RecognisesIffPattern` proves that they agree on every string.
 *
 * `\w` is approximated by the ASCII word characters `[A-Za-z0-9_]`. The
 * regular expression's `$` also matches in front of a final line feed, but the
 * string it is applied to has been trimmed, so here `$` is the end of input.
 */
module EmailGrammar {
  import opened Optional
  import opened Text

  predicate IsWordChar(c: char) {
    ('a' <= c <= 'z') || ('A' <= c <= 'Z') || ('0' <= c <= '9') || c == '_'
  }

  /** `[\w.\-]`, the characters of the local part. */
  predicate IsLocalChar(c: char) {
    IsWordChar(c) || c == '.' || c == '-'
  }

  /** `[\w\-]`, the characters of the first domain label. */
  predicate IsDomainChar(c: char) {
    IsWordChar(c) || c == '-'
  }

  predicate AllLocal(s: string) {
    forall i :: 0 <= i < |s| ==> IsLocalChar(s[i])
  }

  predicate AllDomain(s: string) {
    forall i :: 0 <= i < |s| ==> IsDomainChar(s[i])
  }

  // ---------------------------------------------------------------------------
  // The grammar as the regular expression states it

  /**
   * `(\.(\w){2,3})+`: a dot and two or three word characters, followed either
   * by the end or by another such group.
   */
  predicate DottedLabels(u: string)
    decreases |u|
  {
    |u| >= 3 && u[0] == '.' && IsWordChar(u[1]) && IsWordChar(u[2]) &&
    ( (|u| == 3 || DottedLabels(u[3..])) ||
      (|u| >= 4 && IsWordChar(u[3]) && (|u| == 4 || DottedLabels(u[4..]))) )
  }

  /** `t` splits after `d` characters into `([\w\-]+)` and `((\.(\w){2,3})+)`. */
  ghost predicate HostSplitsAt(t: string, d: int) {
    0 < d < |t| && AllDomain(t[..d]) && DottedLabels(t[d..])
  }

  /** `([\w\-]+)((\.(\w){2,3})+)`: everything after the `@`. */
  ghost predicate HostPart(t: string) {
    exists d :: HostSplitsAt(t, d)
  }

  /** `s` splits at an `@` in position `a` into a local part and a host part. */
  ghost predicate EmailSplitsAt(s: string, a: int) {
    0 < a < |s| && s[a] == '@' && AllLocal(s[..a]) && HostPart(s[a + 1..])
  }

  /** The whole anchored pattern `^([\w.\-]+)@([\w\-]+)((\.(\w){2,3})+)$`. */
  ghost predicate MatchesEmailPattern(s: string) {
    exists a :: EmailSplitsAt(s, a)
  }

  // ---------------------------------------------------------------------------
  // The recogniser

  /**
   * Where the scanner is: in the local part, just after the `@`, in the first
   * domain label, just after a dot of the suffix, one, two or three characters
   * into a suffix label, or past any possible match.
   */
  datatype ScanState =
    | Start | InLocal | AtSign | InDomain | Dot | Label1 | Label2 | Label3 | Fail

  function Step(q: ScanState, c: char): ScanState {
    match q
    case Start => if IsLocalChar(c) then InLocal else Fail
    case InLocal => if IsLocalChar(c) then InLocal else if c == '@' then AtSign else Fail
    case AtSign => if IsDomainChar(c) then InDomain else Fail
    case InDomain => if IsDomainChar(c) then InDomain else if c == '.' then Dot else Fail
    case Dot => if IsWordChar(c) then Label1 else Fail
    case Label1 => if IsWordChar(c) then Label2 else Fail
    case Label2 => if IsWordChar(c) then Label3 else if c == '.' then Dot else Fail
    case Label3 => if c == '.' then Dot else Fail
    case Fail => Fail
  }

  function Run(q: ScanState, s: string): ScanState
    decreases |s|
  {
    if s == [] then q else Run(Step(q, s[0]), s[1..])
  }

  /** The input may end after a suffix label of two or three characters. */
  predicate Accepting(q: ScanState) {
    q == Label2 || q == Label3
  }

  predicate Recognises(s: string) {
    Accepting(Run(Start, s))
  }

  // ---------------------------------------------------------------------------
  // What `IsValidEmail` does

  /**
   * `IsValidEmail`: null and blank input fail, input whose trimmed form ends
   * in a dot fails, and otherwise the trimmed form must match the grammar.
   */
  predicate IsValidEmail(email: Option<string>) {
    if IsNullOrWhiteSpace(email) then false
    else
      var trimmed := Trim(email.value);
      if EndsWithChar(trimmed, '.') then false
      else Recognises(trimmed)
  }

  // ---------------------------------------------------------------------------
  // The recogniser agrees with the grammar

  lemma {:induction false} FailIsFinal(s: string)
    ensures Run(Fail, s) == Fail
  {
    if s != [] {
      FailIsFinal(s[1..]);
    }
  }

  /** What is accepted from inside the dotted suffix. */
  lemma {:induction false} SuffixStates(s: string)
    ensures Accepting(Run(Dot, s)) <==> DottedLabels(['.'] + s)
    ensures Accepting(Run(Label3, s)) <==> (s == [] || DottedLabels(s))
    ensures Accepting(Run(Label2, s)) <==>
              (s == [] || DottedLabels(s) || (IsWordChar(s[0]) && (|s| == 1 || DottedLabels(s[1..]))))
    decreases |s|
  {
    if s == [] {
      return;
    }
    var c := s[0];
    assert (['.'] + s)[1..] == s;
    SuffixStates(s[1..]);
    if c == '.' {
      assert s == ['.'] + s[1..];
    } else {
      FailIsFinal(s[1..]);
    }
    // From Dot: a word character, then a second one, then we are in Label2.
    if IsWordChar(c) && |s| >= 2 && IsWordChar(s[1]) {
      SuffixStates(s[2..]);
      assert s[1..][1..] == s[2..];
      var u := ['.'] + s;
      assert u[3..] == s[2..];
      if |s| >= 3 {
        assert s[2..][1..] == s[3..];
        assert u[4..] == s[3..];
      }
      assert Run(Dot, s) == Run(Label2, s[2..]);
    } else if IsWordChar(c) {
      if |s| >= 2 {
        FailIsFinal(s[2..]);
      }
    }
  }

  /** Each part of the pattern starts with a character of its own class. */
  lemma FirstCharacters(s: string)
    ensures DottedLabels(s) ==> s[0] == '.'
    ensures HostPart(s) ==> IsDomainChar(s[0])
    ensures MatchesEmailPattern(s) ==> IsLocalChar(s[0])
  {
    if HostPart(s) {
      var d :| HostSplitsAt(s, d);
      assert s[..d][0] == s[0];
    }
    if MatchesEmailPattern(s) {
      var a :| EmailSplitsAt(s, a);
      assert s[..a][0] == s[0];
    }
  }

  lemma AllDomainShift(t: string, d: int)
    requires 0 < d <= |t|
    ensures AllDomain(t[..d]) <==> IsDomainChar(t[0]) && AllDomain(t[1..][..d - 1])
  {
    assert t[..d] == [t[0]] + t[1..][..d - 1];
  }

  lemma AllLocalShift(s: string, a: int)
    requires 0 < a <= |s|
    ensures AllLocal(s[..a]) <==> IsLocalChar(s[0]) && AllLocal(s[1..][..a - 1])
  {
    assert s[..a] == [s[0]] + s[1..][..a - 1];
  }

  /** Reading one domain character: the rest is the suffix or again a host part. */
  lemma HostPartShift(t: string)
    requires |t| > 0 && IsDomainChar(t[0])
    ensures HostPart(t) <==> DottedLabels(t[1..]) || HostPart(t[1..])
  {
    if HostPart(t) {
      var d :| HostSplitsAt(t, d);
      AllDomainShift(t, d);
      assert t[1..][d - 1..] == t[d..];
      if d > 1 {
        assert HostSplitsAt(t[1..], d - 1);
      }
    }
    if DottedLabels(t[1..]) {
      AllDomainShift(t, 1);
      assert HostSplitsAt(t, 1);
    }
    if HostPart(t[1..]) {
      var d' :| HostSplitsAt(t[1..], d');
      AllDomainShift(t, d' + 1);
      assert t[1..][d'..] == t[d' + 1..];
      assert HostSplitsAt(t, d' + 1);
    }
  }

  /** What may follow the local part read so far: an `@` and a host part, or more local part. */
  ghost predicate LocalTail(x: string) {
    (|x| > 0 && x[0] == '@' && HostPart(x[1..])) || MatchesEmailPattern(x)
  }

  /** Reading one local-part character. */
  lemma PatternShift(s: string)
    requires |s| > 0 && IsLocalChar(s[0])
    ensures MatchesEmailPattern(s) <==> LocalTail(s[1..])
  {
    if MatchesEmailPattern(s) {
      var a :| EmailSplitsAt(s, a);
      AllLocalShift(s, a);
      assert s[1..][a..] == s[a + 1..];
      if a > 1 {
        assert EmailSplitsAt(s[1..], a - 1);
      } else {
        assert s[1..][1..] == s[2..];
      }
    }
    if |s[1..]| > 0 && s[1..][0] == '@' && HostPart(s[1..][1..]) {
      AllLocalShift(s, 1);
      assert s[1..][1..] == s[2..];
      assert EmailSplitsAt(s, 1);
    }
    if MatchesEmailPattern(s[1..]) {
      var a' :| EmailSplitsAt(s[1..], a');
      AllLocalShift(s, a' + 1);
      assert s[1..][a' + 1..] == s[a' + 2..];
      assert EmailSplitsAt(s, a' + 1);
    }
  }

  /** What is accepted from the first domain label on. */
  lemma {:induction false} DomainState(s: string)
    ensures Accepting(Run(InDomain, s)) <==> DottedLabels(s) || HostPart(s)
    decreases |s|
  {
    if s == [] {
      return;
    }
    var c := s[0];
    FirstCharacters(s);
    if IsDomainChar(c) {
      DomainState(s[1..]);
      HostPartShift(s);
    } else if c == '.' {
      SuffixStates(s[1..]);
      assert s == ['.'] + s[1..];
    } else {
      FailIsFinal(s[1..]);
    }
  }

  /** What is accepted just after the `@`: exactly the host part. */
  lemma AtSignState(t: string)
    ensures Accepting(Run(AtSign, t)) <==> HostPart(t)
  {
    if t == [] {
      return;
    }
    FirstCharacters(t);
    if IsDomainChar(t[0]) {
      DomainState(t[1..]);
      HostPartShift(t);
    } else {
      FailIsFinal(t[1..]);
    }
  }

  /** What is accepted from inside the local part. */
  lemma {:induction false} LocalState(s: string)
    ensures Accepting(Run(InLocal, s)) <==> LocalTail(s)
    decreases |s|
  {
    if s == [] {
      return;
    }
    var c := s[0];
    FirstCharacters(s);
    if IsLocalChar(c) {
      LocalState(s[1..]);
      PatternShift(s);
    } else if c == '@' {
      AtSignState(s[1..]);
    } else {
      FailIsFinal(s[1..]);
    }
  }

  /** The scanner accepts exactly the strings the regular expression matches. */
  lemma RecognisesIffPattern(s: string)
    ensures Recognises(s) <==> MatchesEmailPattern(s)
  {
    if s == [] {
      return;
    }
    FirstCharacters(s);
    if IsLocalChar(s[0]) {
      LocalState(s[1..]);
      PatternShift(s);
    } else {
      FailIsFinal(s[1..]);
    }
  }

  /** The host part never contains an `@`. */
  lemma HostPartHasNoAt(t: string)
    requires HostPart(t)
    ensures '@' !in t
  {
    var d :| HostSplitsAt(t, d);
    DottedLabelsHaveNoAt(t[d..]);
    assert t == t[..d] + t[d..];
    assert '@' !in t[..d];
  }

  lemma {:induction false} DottedLabelsHaveNoAt(u: string)
    requires DottedLabels(u)
    ensures '@' !in u
    decreases |u|
  {
    if |u| > 3 && DottedLabels(u[3..]) {
      DottedLabelsHaveNoAt(u[3..]);
      assert u == u[..3] + u[3..];
    } else if |u| > 4 {
      DottedLabelsHaveNoAt(u[4..]);
      assert u == u[..4] + u[4..];
    }
  }
}

module EmailValidity {
  import opened Optional
  import opened Text
  import opened EmailGrammar

  /** The dotted suffix ends in a word character, never in a dot. */
  lemma {:induction false} DottedLabelsEndInWordChar(u: string)
    requires DottedLabels(u)
    ensures IsWordChar(u[|u| - 1])
    decreases |u|
  {
    if |u| > 3 && DottedLabels(u[3..]) {
      DottedLabelsEndInWordChar(u[3..]);
    } else if |u| > 4 {
      DottedLabelsEndInWordChar(u[4..]);
    }
  }

  /** Every string the pattern matches ends in a word character. */
  lemma PatternEndsInWordChar(s: string)
    requires MatchesEmailPattern(s)
    ensures IsWordChar(s[|s| - 1])
  {
    var a :| EmailSplitsAt(s, a);
    var t := s[a + 1..];
    var d :| HostSplitsAt(t, d);
    DottedLabelsEndInWordChar(t[d..]);
    assert s[|s| - 1] == t[d..][|t[d..]| - 1];
  }

  /**
   * `IsValidEmail` accepts exactly the non-null strings whose trimmed form
   * matches the pattern. The blank test and the trailing-dot test in front of
   * the pattern never change the answer: the pattern alone rejects both.
   */
  lemma IsValidEmailIffPattern(email: Option<string>)
    ensures IsValidEmail(email) <==> email.Some? && MatchesEmailPattern(Trim(email.value))
  {
    if email.Some? {
      var t := Trim(email.value);
      RecognisesIffPattern(t);
      BlankIffTrimsToEmpty(email.value);
      if MatchesEmailPattern(t) {
        PatternEndsInWordChar(t);
      }
    }
  }

  /** Null, blank, and trailing-dot input are rejected. */
  lemma RejectsBlankAndTrailingDot(email: Option<string>)
    ensures email.None? ==> !IsValidEmail(email)
    ensures email.Some? && (forall i :: 0 <= i < |email.value| ==> IsWhiteSpace(email.value[i])) ==> !IsValidEmail(email)
    ensures email.Some? && EndsWithChar(Trim(email.value), '.') ==> !IsValidEmail(email)
  {
  }

  /** The host part consists of word characters, hyphens and dots. */
  lemma HostPartIsLocal(t: string)
    requires HostPart(t)
    ensures forall i :: 0 <= i < |t| ==> IsLocalChar(t[i])
  {
    var d :| HostSplitsAt(t, d);
    DottedLabelsAreLocal(t[d..]);
    forall i | 0 <= i < |t|
      ensures IsLocalChar(t[i])
    {
      if i < d {
        assert t[i] == t[..d][i];
      } else {
        assert t[i] == t[d..][i - d];
      }
    }
  }

  /**
   * A string the pattern matches has exactly one `@`, and apart from it only
   * word characters, dots and hyphens (so no white space and no `;`).
   */
  lemma PatternShape(s: string)
    requires MatchesEmailPattern(s)
    ensures multiset(s)['@'] == 1
    ensures forall i :: 0 <= i < |s| ==> IsLocalChar(s[i]) || s[i] == '@'
  {
    var a :| EmailSplitsAt(s, a);
    var host := s[a + 1..];
    HostPartHasNoAt(host);
    HostPartIsLocal(host);
    forall i | 0 <= i < |s|
      ensures IsLocalChar(s[i]) || s[i] == '@'
    {
      if i < a {
        assert s[i] == s[..a][i];
      } else if i > a {
        assert s[i] == host[i - (a + 1)];
      }
    }
    assert s == s[..a] + [s[a]] + host;
    assert multiset(s) == multiset(s[..a]) + multiset([s[a]]) + multiset(host);
    assert '@' !in s[..a];
  }

  /** What an accepted address looks like once trimmed. */
  lemma AcceptedAddressShape(s: string)
    requires IsValidEmail(Some(s))
    ensures multiset(Trim(s))['@'] == 1
    ensures forall i :: 0 <= i < |Trim(s)| ==> IsLocalChar(Trim(s)[i]) || Trim(s)[i] == '@'
  {
    IsValidEmailIffPattern(Some(s));
    PatternShape(Trim(s));
  }

  lemma {:induction false} DottedLabelsAreLocal(u: string)
    requires DottedLabels(u)
    ensures forall i :: 0 <= i < |u| ==> IsLocalChar(u[i])
    decreases |u|
  {
    if |u| > 3 && DottedLabels(u[3..]) {
      DottedLabelsAreLocal(u[3..]);
      assert forall i :: 3 <= i < |u| ==> u[i] == u[3..][i - 3];
    } else if |u| > 4 {
      DottedLabelsAreLocal(u[4..]);
      assert forall i :: 4 <= i < |u| ==> u[i] == u[4..][i - 4];
    }
  }

  /** Scanning a concatenation is scanning its parts one after the other. */
  lemma {:induction false} RunAppend(q: ScanState, x: string, y: string)
    ensures Run(q, x + y) == Run(Run(q, x), y)
    decreases |x|
  {
    if x != [] {
      assert (x + y)[0] == x[0];
      assert (x + y)[1..] == x[1..] + y;
      RunAppend(Step(q, x[0]), x[1..], y);
    } else {
      assert x + y == y;
    }
  }

  /** `IsValidEmail` is the scanner applied to the trimmed string. */
  lemma IsValidEmailIffRecognised(email: Option<string>)
    ensures IsValidEmail(email) <==> email.Some? && Recognises(Trim(email.value))
  {
    IsValidEmailIffPattern(email);
    if email.Some? {
      RecognisesIffPattern(Trim(email.value));
    }
  }

  lemma ScanValidPieces()
    ensures "a@b.co.uk" == "a@b." + "co.uk"
    ensures Run(Start, "a@b.") == Dot
    ensures Run(Dot, "co.uk") == Label2
  {
  }

  lemma ScanValid()
    ensures Run(Start, "a@b.co.uk") == Label2
  {
    ScanValidPieces();
    RunAppend(Start, "a@b.", "co.uk");
  }

  /** A second-level label of two characters and a country code. */
  lemma ExampleValid()
    ensures IsValidEmail(Some("a@b.co.uk"))
  {
    TrimUnpadded("a@b.co.uk");
    ScanValidPieces();
    ScanValid();
    IsValidEmailIffRecognised(Some("a@b.co.uk"));
  }

  lemma TrimmedExampleTrim()
    ensures Trim("  a@b.com ") == "a@b.com"
  {
    assert TrimStart("  a@b.com ") == "a@b.com ";
    assert TrimEnd("a@b.com ") == "a@b.com";
  }

  lemma ScanTrimmedPieces()
    ensures "a@b.com" == "a@b." + "com"
    ensures Run(Start, "a@b.") == Dot
    ensures Run(Dot, "com") == Label3
  {
  }

  lemma ScanTrimmed()
    ensures Run(Start, "a@b.com") == Label3
  {
    ScanTrimmedPieces();
    RunAppend(Start, "a@b.", "com");
  }

  /** Surrounding white space is trimmed before matching. */
  lemma ExampleTrimmed()
    ensures IsValidEmail(Some("  a@b.com "))
  {
    TrimmedExampleTrim();
    ScanTrimmedPieces();
    ScanTrimmed();
    IsValidEmailIffRecognised(Some("  a@b.com "));
  }

  lemma ScanDotBeforeAtPieces()
    ensures "a.@b.com" == "a.@b." + "com"
    ensures Run(Start, "a.@b.") == Dot
    ensures Run(Dot, "com") == Label3
  {
  }

  lemma ScanDotBeforeAt()
    ensures Run(Start, "a.@b.com") == Label3
  {
    ScanDotBeforeAtPieces();
    RunAppend(Start, "a.@b.", "com");
  }

  /** A dot at the end of the local part is accepted: only a dot at the very end of the address is tested for. */
  lemma ExampleDotBeforeAt()
    ensures IsValidEmail(Some("a.@b.com"))
  {
    TrimUnpadded("a.@b.com");
    ScanDotBeforeAtPieces();
    ScanDotBeforeAt();
    IsValidEmailIffRecognised(Some("a.@b.com"));
  }

  lemma ScanLongLabelPieces()
    ensures "a@mail.example.com" == "a@mail." + "exam" + "ple.com"
    ensures Run(Start, "a@mail.") == Dot
    ensures Run(Dot, "exam") == Fail
  {
  }

  lemma ScanLongLabel()
    ensures Run(Start, "a@mail.example.com") == Fail
  {
    ScanLongLabelPieces();
    RunAppend(Start, "a@mail.", "exam" + "ple.com");
    RunAppend(Dot, "exam", "ple.com");
    FailIsFinal("ple.com");
  }

  /** Only the first domain label may be longer than three characters. */
  lemma ExampleLongLabel()
    ensures !IsValidEmail(Some("a@mail.example.com"))
  {
    TrimUnpadded("a@mail.example.com");
    ScanLongLabelPieces();
    ScanLongLabel();
    IsValidEmailIffRecognised(Some("a@mail.example.com"));
  }

  lemma ScanLongTldPieces()
    ensures "a@b.comm" == "a@b." + "comm"
    ensures Run(Start, "a@b.") == Dot
    ensures Run(Dot, "comm") == Fail
  {
  }

  lemma ScanLongTld()
    ensures Run(Start, "a@b.comm") == Fail
  {
    ScanLongTldPieces();
    RunAppend(Start, "a@b.", "comm");
  }

  /** A four-character top-level domain. */
  lemma ExampleLongTld()
    ensures !IsValidEmail(Some("a@b.comm"))
  {
    TrimUnpadded("a@b.comm");
    ScanLongTldPieces();
    ScanLongTld();
    IsValidEmailIffRecognised(Some("a@b.comm"));
  }

  lemma ScanTwoAtsPieces()
    ensures "a@b@c.com" == "a@b@" + "c.com"
    ensures Run(Start, "a@b@") == Fail
  {
  }

  lemma ScanTwoAts()
    ensures Run(Start, "a@b@c.com") == Fail
  {
    ScanTwoAtsPieces();
    RunAppend(Start, "a@b@", "c.com");
    FailIsFinal("c.com");
  }

  /** A second `@`. */
  lemma ExampleTwoAts()
    ensures !IsValidEmail(Some("a@b@c.com"))
  {
    TrimUnpadded("a@b@c.com");
    ScanTwoAtsPieces();
    ScanTwoAts();
    IsValidEmailIffRecognised(Some("a@b@c.com"));
  }
}
