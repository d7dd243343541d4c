/** The request interception of the capture session: the routing decision
    for each request the page issues, and the in-flight rewrite of the
    country variable embedded in every document the page loads. */
module Screenshot {
  import opened Wrappers
  import Text

  /** The fixed text every occurrence starts with. */
  const Prefix := "var country = "

  /** Every occurrence is `Prefix`, a quote, two letters, a quote and `;`. */
  const MatchLength := 19

  predicate IsQuote(c: char)
  {
    c == '"' || c == '\''
  }

  predicate IsUpper(c: char)
  {
    'A' <= c <= 'Z'
  }

  /** The pattern `var country = ["'][A-Z]{2}["'];` matches at position `i`
      of `s`. The two quotes are independent character classes. */
  predicate MatchAt(s: string, i: nat)
  {
    && i + MatchLength <= |s|
    && s[i..i + 14] == Prefix
    && IsQuote(s[i + 14])
    && IsUpper(s[i + 15])
    && IsUpper(s[i + 16])
    && IsQuote(s[i + 17])
    && s[i + 18] == ';'
  }

  /** One position of the regular expression: a fixed character, either
      quote, or an upper-case ASCII letter. */
  datatype CharClass = Exactly(c: char) | Quote | Capital

  predicate Accepts(k: CharClass, c: char)
  {
    match k
    case Exactly(e) => c == e
    case Quote => IsQuote(c)
    case Capital => IsUpper(c)
  }

  /** `var country = ["'][A-Z]{2}["'];`, one character class per position. */
  const Pattern: seq<CharClass> :=
    seq(|Prefix|, k requires 0 <= k < |Prefix| => Exactly(Prefix[k]))
    + [Quote, Capital, Capital, Quote, Exactly(';')]

  /** `MatchAt` is the regular expression read position by position: every
      one of its 19 classes accepts the character it meets. */
  lemma MatchIsPattern(s: string, i: nat)
    ensures |Pattern| == MatchLength
    ensures MatchAt(s, i) <==>
      i + |Pattern| <= |s| && forall k :: 0 <= k < |Pattern| ==> Accepts(Pattern[k], s[i + k])
  {
    if i + MatchLength <= |s| {
      if MatchAt(s, i) {
        forall k | 0 <= k < |Pattern| ensures Accepts(Pattern[k], s[i + k]) {
          if k < 14 {
            assert s[i + k] == s[i..i + 14][k];
          }
        }
      }
      if forall k :: 0 <= k < |Pattern| ==> Accepts(Pattern[k], s[i + k]) {
        forall k | 0 <= k < 14 ensures s[i..i + 14][k] == Prefix[k] {
          assert Accepts(Pattern[k], s[i + k]);
        }
        assert Accepts(Pattern[14], s[i + 14]);
        assert Accepts(Pattern[15], s[i + 15]);
        assert Accepts(Pattern[16], s[i + 16]);
        assert Accepts(Pattern[17], s[i + 17]);
        assert Accepts(Pattern[18], s[i + 18]);
      }
    }
  }

  /** A code `re.sub` would insert literally: it holds no backslash escape. */
  predicate IsLiteral(code: string)
  {
    '\\' !in code
  }

  /** What each occurrence becomes: always the double-quoted form. */
  function Replacement(code: string): (r: string)
    ensures |r| == 17 + |code|
  {
    Prefix + "\"" + code + "\";"
  }

  /** The replacement starts like an occurrence, uses double quotes, and with
      a two-letter code is itself an occurrence. */
  lemma ReplacementShape(code: string, rest: string)
    ensures var w := Replacement(code) + rest;
      w[0] == 'v' && w[14] == '"' && w[15 + |code|] == '"' && w[16 + |code|] == ';'
    ensures Text.IsCountryCode(code) ==> MatchAt(Replacement(code) + rest, 0)
  {
    var w := Replacement(code) + rest;
    assert w[..14] == Prefix && w[0..14] == Prefix;
    assert w[15 + |code|] == '"';
  }

  /** `re.sub(pattern, 'var country = "<code>";', body)` as a left-to-right
      scan: at each position either an occurrence is replaced and skipped,
      or one character is copied. A two-character code keeps the length. */
  function Rewrite(body: string, code: string): (r: string)
    requires IsLiteral(code)
    ensures |code| == 2 ==> |r| == |body|
    decreases |body|
  {
    if |body| == 0 then ""
    else if MatchAt(body, 0) then Replacement(code) + Rewrite(body[MatchLength..], code)
    else [body[0]] + Rewrite(body[1..], code)
  }

  /** One step of the scan at an occurrence. */
  lemma RewriteAtMatch(s: string, code: string)
    requires IsLiteral(code) && MatchAt(s, 0)
    ensures Rewrite(s, code) == Replacement(code) + Rewrite(s[MatchLength..], code)
  {
  }

  /** One step of the scan where no occurrence starts. */
  lemma RewriteAtOther(s: string, code: string)
    requires IsLiteral(code) && |s| > 0 && !MatchAt(s, 0)
    ensures Rewrite(s, code) == [s[0]] + Rewrite(s[1..], code)
  {
  }

  // ---------------------------------------------------------------------
  // Shape of an occurrence

  /** Matching inside a suffix is matching in the whole text, shifted. */
  lemma MatchShift(s: string, from: nat, j: nat)
    requires from <= |s|
    ensures MatchAt(s[from..], j) <==> MatchAt(s, from + j)
  {
    if from + j + MatchLength <= |s| {
      assert s[from..][j..j + 14] == s[from + j..from + j + 14];
    }
  }

  /** Whether an occurrence starts at 0 depends only on the first 19 characters. */
  lemma MatchWindow(a: string, b: string)
    requires |a| >= MatchLength && |b| >= MatchLength
    requires a[..MatchLength] == b[..MatchLength]
    ensures MatchAt(a, 0) <==> MatchAt(b, 0)
  {
    assert a[..14] == a[..MatchLength][..14];
    assert b[..14] == b[..MatchLength][..14];
    assert forall k :: 14 <= k < MatchLength ==> a[k] == a[..MatchLength][k] && b[k] == b[..MatchLength][k];
  }

  /** The only `v` of an occurrence is its first character. */
  lemma MatchShape(s: string, i: nat)
    requires MatchAt(s, i)
    ensures s[i] == 'v'
    ensures forall k :: i < k < i + MatchLength ==> s[k] != 'v'
  {
    assert s[i] == s[i..i + 14][0] == Prefix[0];
    forall k | i < k < i + 14 ensures s[k] != 'v' {
      assert s[k] == s[i..i + 14][k - i];
    }
  }

  /** Two occurrences never overlap, so which ones get replaced does not
      depend on how the text is scanned. */
  lemma MatchesDoNotOverlap(s: string, i: nat, j: nat)
    requires MatchAt(s, i) && MatchAt(s, j) && i < j
    ensures i + MatchLength <= j
  {
    MatchShape(s, i);
    MatchShape(s, j);
  }

  // ---------------------------------------------------------------------
  // The scan against re.sub's own definition

  /** Leftmost occurrence at or after `from`. */
  function NextMatch(s: string, from: nat): (r: Option<nat>)
    ensures r.None? ==> forall k: nat :: from <= k ==> !MatchAt(s, k)
    ensures r.Some? ==> from <= r.value && MatchAt(s, r.value)
    ensures r.Some? ==> forall k :: from <= k < r.value ==> !MatchAt(s, k)
    decreases |s| - from
  {
    if from + MatchLength > |s| then None
    else if MatchAt(s, from) then Some(from)
    else NextMatch(s, from + 1)
  }

  /** Reference definition of `re.sub` from position `from`: copy up to the
      leftmost occurrence, emit the replacement, resume after the occurrence. */
  function Sub(s: string, code: string, from: nat): (r: string)
    requires from <= |s|
    decreases |s| - from
  {
    match NextMatch(s, from)
    case None => s[from..]
    case Some(m) => s[from..m] + Replacement(code) + Sub(s, code, m + MatchLength)
  }

  /** A stretch without occurrences is copied verbatim by the scan. */
  lemma {:induction false} ScanCopies(s: string, code: string, n: nat)
    requires IsLiteral(code)
    requires n <= |s|
    requires forall k :: 0 <= k < n ==> !MatchAt(s, k)
    ensures Rewrite(s, code) == s[..n] + Rewrite(s[n..], code)
    decreases n
  {
    if n == 0 {
      assert s[..0] + s[0..] == s;
    } else {
      ScanCopies(s, code, n - 1);
      var t := s[n - 1..];
      assert !MatchAt(s, n - 1);
      MatchShift(s, n - 1, 0);
      RewriteAtOther(t, code);
      assert t[1..] == s[n..];
      var rest := Rewrite(s[n..], code);
      assert Rewrite(t, code) == [s[n - 1]] + rest;
      assert s[..n - 1] + ([s[n - 1]] + rest) == (s[..n - 1] + [s[n - 1]]) + rest;
      assert s[..n - 1] + [s[n - 1]] == s[..n];
    }
  }

  /** The two halves of a concatenation. */
  lemma ConcatParts(s: string, a: string, b: string)
    requires s == a + b
    ensures s[..|a|] == a && s[|a|..] == b
  {
  }

  /** From any position, the scan copies up to the next occurrence. */
  lemma ScanCopiesFrom(s: string, code: string, from: nat, m: nat)
    requires IsLiteral(code)
    requires from <= m <= |s|
    requires forall k :: from <= k < m ==> !MatchAt(s, k)
    ensures Rewrite(s[from..], code) == s[from..m] + Rewrite(s[m..], code)
  {
    var t := s[from..];
    forall k | 0 <= k < m - from ensures !MatchAt(t, k) {
      MatchShift(s, from, k);
    }
    ScanCopies(t, code, m - from);
    assert t[..m - from] == s[from..m];
    assert t[m - from..] == s[m..];
  }

  /** At an occurrence the scan emits the replacement and resumes after it. */
  lemma ScanReplacesAt(s: string, code: string, m: nat)
    requires IsLiteral(code)
    requires MatchAt(s, m)
    ensures Rewrite(s[m..], code) == Replacement(code) + Rewrite(s[m + MatchLength..], code)
  {
    MatchShift(s, m, 0);
    RewriteAtMatch(s[m..], code);
    assert s[m..][MatchLength..] == s[m + MatchLength..];
  }

  /** The scan and `re.sub`'s leftmost non-overlapping replacement agree. */
  lemma {:induction false} RewriteIsSub(s: string, code: string, from: nat)
    requires IsLiteral(code)
    requires from <= |s|
    ensures Rewrite(s[from..], code) == Sub(s, code, from)
    decreases |s| - from
  {
    match NextMatch(s, from)
    case None =>
      ScanCopiesFrom(s, code, from, |s|);
      assert s[|s|..] == [];
    case Some(m) =>
      ScanCopiesFrom(s, code, from, m);
      ScanReplacesAt(s, code, m);
      RewriteIsSub(s, code, m + MatchLength);
      var rest := Sub(s, code, m + MatchLength);
      assert s[from..m] + (Replacement(code) + rest) == s[from..m] + Replacement(code) + rest;
  }

  // ---------------------------------------------------------------------
  // What the rewrite promises

  /** `s` holds the replacement at position `i`. */
  predicate ReplacedAt(s: string, code: string, i: nat)
  {
    i + |Replacement(code)| <= |s| && s[i..i + |Replacement(code)|] == Replacement(code)
  }

  /** Holding the replacement at a position of a suffix is holding it in the
      whole text, shifted. */
  lemma ReplacedShift(s: string, code: string, from: nat, j: nat)
    requires from <= |s|
    ensures ReplacedAt(s[from..], code, j) <==> ReplacedAt(s, code, from + j)
  {
    var n := |Replacement(code)|;
    if from + j + n <= |s| {
      assert s[from..][j..j + n] == s[from + j..from + j + n];
    }
  }

  /** With a two-letter code, text that already reads
      `var country = "<code>";` at every occurrence is left as it is. */
  lemma {:induction false} UnchangedWhenCanonical(s: string, code: string)
    requires IsLiteral(code) && |code| == 2
    requires forall i: nat :: MatchAt(s, i) ==> ReplacedAt(s, code, i)
    ensures Rewrite(s, code) == s
    decreases |s|
  {
    if |s| == 0 {
    } else if MatchAt(s, 0) {
      var t := s[MatchLength..];
      forall j: nat | MatchAt(t, j) ensures ReplacedAt(t, code, j) {
        MatchShift(s, MatchLength, j);
        ReplacedShift(s, code, MatchLength, j);
      }
      UnchangedWhenCanonical(t, code);
      RewriteAtMatch(s, code);
      assert ReplacedAt(s, code, 0);
      assert s == s[..MatchLength] + t;
    } else {
      var t := s[1..];
      forall j: nat | MatchAt(t, j) ensures ReplacedAt(t, code, j) {
        MatchShift(s, 1, j);
        ReplacedShift(s, code, 1, j);
      }
      UnchangedWhenCanonical(t, code);
      RewriteAtOther(s, code);
      assert s == [s[0]] + t;
    }
  }

  /** A body with no occurrence is returned unchanged, whatever the code. */
  lemma NoMatchUnchanged(s: string, code: string)
    requires IsLiteral(code)
    requires forall i: nat :: !MatchAt(s, i)
    ensures Rewrite(s, code) == s
  {
    ScanCopies(s, code, |s|);
    assert s[..|s|] == s && s[|s|..] == [];
  }

  /** With a two-letter code, a body that comes back unchanged already reads
      `var country = "<code>";` at every occurrence. */
  lemma {:induction false} UnchangedOnlyWhenCanonical(s: string, code: string, i: nat)
    requires IsLiteral(code) && |code| == 2
    requires Rewrite(s, code) == s
    requires MatchAt(s, i)
    ensures ReplacedAt(s, code, i)
    decreases |s|
  {
    if MatchAt(s, 0) {
      CanonicalAfterMatch(s, code);
      if i > 0 {
        MatchesDoNotOverlap(s, 0, i);
        MatchShift(s, MatchLength, i - MatchLength);
        UnchangedOnlyWhenCanonical(s[MatchLength..], code, i - MatchLength);
        ReplacedShift(s, code, MatchLength, i - MatchLength);
      }
    } else {
      CanonicalAfterOther(s, code);
      MatchShift(s, 1, i - 1);
      UnchangedOnlyWhenCanonical(s[1..], code, i - 1);
      ReplacedShift(s, code, 1, i - 1);
    }
  }

  /** A text the scan leaves alone that starts with an occurrence holds the
      replacement there and is left alone after it. */
  lemma CanonicalAfterMatch(s: string, code: string)
    requires IsLiteral(code) && |code| == 2 && Rewrite(s, code) == s && MatchAt(s, 0)
    ensures ReplacedAt(s, code, 0)
    ensures Rewrite(s[MatchLength..], code) == s[MatchLength..]
  {
    RewriteAtMatch(s, code);
    ConcatParts(s, Replacement(code), Rewrite(s[MatchLength..], code));
    assert s[0..|Replacement(code)|] == s[..|Replacement(code)|];
  }

  /** A text the scan leaves alone that does not start with an occurrence is
      left alone after its first character. */
  lemma CanonicalAfterOther(s: string, code: string)
    requires IsLiteral(code) && Rewrite(s, code) == s && |s| > 0 && !MatchAt(s, 0)
    ensures Rewrite(s[1..], code) == s[1..]
  {
    RewriteAtOther(s, code);
    ConcatParts(s, [s[0]], Rewrite(s[1..], code));
  }

  /** Where the scan first replaces, its output has the `v` the replacement
      starts with. */
  lemma ScanOutputAtFirstMatch(t: string, code: string, m: nat)
    requires IsLiteral(code)
    requires MatchAt(t, m)
    requires forall k :: 0 <= k < m ==> !MatchAt(t, k)
    ensures m < |Rewrite(t, code)| && Rewrite(t, code)[m] == 'v'
  {
    ScanCopiesFrom(t, code, 0, m);
    ScanReplacesAt(t, code, m);
    assert t[0..] == t;
    ReplacementShape(code, Rewrite(t[m + MatchLength..], code));
  }

  /** Copying a character the pattern rejects never creates an occurrence at
      that character: whatever the scan does to the rest, the first place it
      can change is the `v` of a replacement, which cannot sit inside an
      occurrence starting here. */
  lemma NoMatchAfterCopy(s: string, code: string)
    requires IsLiteral(code)
    requires |s| > 0 && !MatchAt(s, 0)
    ensures !MatchAt([s[0]] + Rewrite(s[1..], code), 0)
  {
    var t := s[1..];
    var w := [s[0]] + Rewrite(t, code);
    var next := NextMatch(t, 0);
    if next.Some? && next.value < MatchLength - 1 {
      ScanOutputAtFirstMatch(t, code, next.value);
      assert w[next.value + 1] == 'v';
      if MatchAt(w, 0) {
        MatchShape(w, 0);
      }
    } else if |t| < MatchLength - 1 {
      ScanCopies(t, code, |t|);
      assert w == s;
    } else {
      ScanCopies(t, code, MatchLength - 1);
      assert w[..MatchLength] == s[..MatchLength];
      MatchWindow(w, s);
    }
  }

  /** After rewriting with a valid code, every occurrence left in the output
      is a replacement: no original occurrence survives and none is created. */
  lemma {:induction false} OnlyReplacementsRemain(s: string, code: string, i: nat)
    requires IsLiteral(code) && Text.IsCountryCode(code)
    requires MatchAt(Rewrite(s, code), i)
    ensures ReplacedAt(Rewrite(s, code), code, i)
    decreases |s|
  {
    var out := Rewrite(s, code);
    if MatchAt(s, 0) {
      var x := Rewrite(s[MatchLength..], code);
      RewriteAtMatch(s, code);
      ConcatParts(out, Replacement(code), x);
      if i > 0 {
        ReplacementShape(code, x);
        MatchesDoNotOverlap(out, 0, i);
        MatchShift(out, MatchLength, i - MatchLength);
        OnlyReplacementsRemain(s[MatchLength..], code, i - MatchLength);
        ReplacedShift(out, code, MatchLength, i - MatchLength);
      }
    } else {
      var y := Rewrite(s[1..], code);
      RewriteAtOther(s, code);
      ConcatParts(out, [s[0]], y);
      NoMatchAfterCopy(s, code);
      MatchShift(out, 1, i - 1);
      OnlyReplacementsRemain(s[1..], code, i - 1);
      ReplacedShift(out, code, 1, i - 1);
    }
  }

  /** Rewriting again with the same two-letter code changes nothing. */
  lemma RewriteIdempotent(s: string, code: string)
    requires IsLiteral(code) && Text.IsCountryCode(code)
    ensures Rewrite(Rewrite(s, code), code) == Rewrite(s, code)
  {
    var out := Rewrite(s, code);
    forall i: nat | MatchAt(out, i) ensures ReplacedAt(out, code, i) {
      OnlyReplacementsRemain(s, code, i);
    }
    UnchangedWhenCanonical(out, code);
  }

  /** With a two-letter code every occurrence of the input, whatever its quote
      style, reads `var country = "<code>";` at the same place in the output. */
  lemma {:induction false} EveryOccurrenceReplaced(s: string, code: string, i: nat)
    requires IsLiteral(code) && |code| == 2
    requires MatchAt(s, i)
    ensures ReplacedAt(Rewrite(s, code), code, i)
    decreases |s|
  {
    var out := Rewrite(s, code);
    if MatchAt(s, 0) {
      var t := s[MatchLength..];
      RewriteAtMatch(s, code);
      ConcatParts(out, Replacement(code), Rewrite(t, code));
      if i > 0 {
        MatchesDoNotOverlap(s, 0, i);
        MatchShift(s, MatchLength, i - MatchLength);
        EveryOccurrenceReplaced(t, code, i - MatchLength);
        ReplacedShift(out, code, MatchLength, i - MatchLength);
      }
    } else {
      var t := s[1..];
      RewriteAtOther(s, code);
      ConcatParts(out, [s[0]], Rewrite(t, code));
      MatchShift(s, 1, i - 1);
      EveryOccurrenceReplaced(t, code, i - 1);
      ReplacedShift(out, code, 1, i - 1);
    }
  }

  /** With a two-letter code every character outside the occurrences of the
      input is kept, at the same place. */
  lemma {:induction false} OutsideOccurrencesKept(s: string, code: string, k: nat)
    requires IsLiteral(code) && |code| == 2
    requires k < |s|
    requires forall i: nat :: MatchAt(s, i) ==> !(i <= k < i + MatchLength)
    ensures Rewrite(s, code)[k] == s[k]
    decreases |s|
  {
    if MatchAt(s, 0) {
      var t := s[MatchLength..];
      RewriteAtMatch(s, code);
      forall j: nat | MatchAt(t, j) ensures !(j <= k - MatchLength < j + MatchLength) {
        MatchShift(s, MatchLength, j);
      }
      OutsideOccurrencesKept(t, code, k - MatchLength);
    } else if k > 0 {
      var t := s[1..];
      RewriteAtOther(s, code);
      forall j: nat | MatchAt(t, j) ensures !(j <= k - 1 < j + MatchLength) {
        MatchShift(s, 1, j);
      }
      OutsideOccurrencesKept(t, code, k - 1);
    } else {
      RewriteAtOther(s, code);
    }
  }

  /** A single-quoted occurrence is replaced by the double-quoted form. */
  lemma SingleQuotesReplaced()
    ensures Rewrite("var country = 'US';", "FR") == "var country = \"FR\";"
  {
    var s := "var country = 'US';";
    assert s[0..14] == Prefix;
    assert MatchAt(s, 0);
    assert s[MatchLength..] == "";
  }

  /** Each quote is its own character class, so mismatched quotes match too. */
  lemma MixedQuotesReplaced()
    ensures Rewrite("var country = \"US';", "FR") == "var country = \"FR\";"
  {
    var s := "var country = \"US';";
    assert s[0..14] == Prefix;
    assert MatchAt(s, 0);
    assert s[MatchLength..] == "";
  }

  /** Lower-case letters do not match. */
  lemma LowerCaseUntouched()
    ensures Rewrite("var country = \"us\";", "FR") == "var country = \"us\";"
  {
    var s := "var country = \"us\";";
    forall i: nat ensures !MatchAt(s, i) {
      if i == 0 {
        assert !IsUpper(s[15]);
      }
    }
    NoMatchUnchanged(s, "FR");
  }

  /** Three letters do not match. */
  lemma ThreeLettersUntouched()
    ensures Rewrite("var country = \"USA\";", "FR") == "var country = \"USA\";"
  {
    var s := "var country = \"USA\";";
    forall i: nat ensures !MatchAt(s, i) {
      if i == 0 {
        assert !IsQuote(s[17]);
      } else if i == 1 {
        assert s[1..15][0] != Prefix[0];
      }
    }
    NoMatchUnchanged(s, "FR");
  }

  // ---------------------------------------------------------------------
  // Routing

  /** A response as the page sees it. */
  datatype Response = Response(status: int, headers: map<string, string>, body: string)

  /** What the interception handler does with one request. */
  datatype RouteAction =
    | Fulfill(response: Response)  // answered with the given response
    | Continue                     // passed on to the network untouched

  /** The resource type the handler rewrites: every document the page
      loads, frames included. */
  const DocumentType := "document"

  /** `handle_route`, bound to the request's country code: the document is
      fetched (`upstream` is what that fetch returns) and fulfilled with the
      upstream status and headers and the rewritten body; every other
      request continues without being fetched. */
  function HandleRoute(code: string, resourceType: string, upstream: Response): (a: RouteAction)
    requires IsLiteral(code)
    ensures a.Fulfill? <==> resourceType == DocumentType
    ensures a.Fulfill? ==> a.response.status == upstream.status && a.response.headers == upstream.headers
    ensures a.Fulfill? ==> a.response.body == Sub(upstream.body, code, 0)
    ensures a.Fulfill? && |code| == 2 ==> |a.response.body| == |upstream.body|
  {
    RewriteIsSub(upstream.body, code, 0);
    assert upstream.body[0..] == upstream.body;
    if resourceType == DocumentType then
      Fulfill(Response(upstream.status, upstream.headers, Rewrite(upstream.body, code)))
    else
      Continue
  }

  /** A non-document request is continued whatever the upstream would have
      said: its response is never fetched, let alone rewritten. */
  lemma OtherResourcesContinue(code: string, resourceType: string, u1: Response, u2: Response)
    requires IsLiteral(code)
    requires resourceType != DocumentType
    ensures HandleRoute(code, resourceType, u1) == Continue
    ensures HandleRoute(code, resourceType, u1) == HandleRoute(code, resourceType, u2)
  {
  }

  /** A document without the pattern is fulfilled with the upstream response as is. */
  lemma DocumentWithoutPatternPassesThrough(code: string, upstream: Response)
    requires IsLiteral(code)
    requires forall i: nat :: !MatchAt(upstream.body, i)
    ensures HandleRoute(code, DocumentType, upstream) == Fulfill(upstream)
  {
    NoMatchUnchanged(upstream.body, code);
  }

  /** A document whose country variable is set is fulfilled with the
      requested code in place of the served one. */
  lemma DocumentCountryReplaced(code: string, upstream: Response, i: nat)
    requires IsLiteral(code) && |code| == 2
    requires MatchAt(upstream.body, i)
    ensures var a := HandleRoute(code, DocumentType, upstream);
      a.Fulfill? && ReplacedAt(a.response.body, code, i)
  {
    EveryOccurrenceReplaced(upstream.body, code, i);
  }
}
