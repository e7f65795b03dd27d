/**
 The step of the HTML5 index clean-up that puts double quotes around
 unquoted `href` values: every match of the regular expression
 `<a href=([^"][^\s>]+)` is rewritten to `<a href="\1"`.

 The regular expression engine scans the text left to right. Where the
 pattern matches, the match is rewritten and the scan resumes after it;
 elsewhere one character is copied. A match is `<a href=`, then one character
 that is not a double quote, then the longest run (at least one character)
 of characters that are neither whitespace nor `>`.
 */
module HrefQuoting {

  const Prefix: string := "<a href="

  /** Python's `\s` on text: the characters `str.isspace` accepts. */
  predicate IsWhitespace(c: char) {
    var n := c as int;
    || (0x09 <= n <= 0x0D) || (0x1C <= n <= 0x20) || n == 0x85 || n == 0xA0 || n == 0x1680
    || (0x2000 <= n <= 0x200A) || n == 0x2028 || n == 0x2029 || n == 0x202F || n == 0x205F
    || n == 0x3000
  }

  /** The class `[^\s>]`. */
  predicate IsValueChar(c: char) {
    !IsWhitespace(c) && c != '>'
  }

  /** Length of the longest leading run of value characters: what the greedy
      `[^\s>]+` takes. */
  function RunLength(u: string): (n: nat)
    ensures n <= |u|
    ensures forall k :: 0 <= k < n ==> IsValueChar(u[k])
    ensures n == |u| || !IsValueChar(u[n])
  {
    if |u| > 0 && IsValueChar(u[0]) then 1 + RunLength(u[1..]) else 0
  }

  /** The pattern matches at the start of `u`. */
  predicate Matches(u: string) {
    && |u| >= |Prefix| + 2
    && u[..|Prefix|] == Prefix
    && u[|Prefix|] != '"'
    && IsValueChar(u[|Prefix| + 1])
  }

  /** Where a match at the start of `u` ends. */
  function MatchEnd(u: string): (m: nat)
    requires Matches(u)
    ensures |Prefix| + 2 <= m <= |u|
  {
    |Prefix| + 1 + RunLength(u[|Prefix| + 1..])
  }

  /** The characters the two classes of the pattern are about. */
  lemma CharacterClasses()
    ensures IsWhitespace(' ') && IsWhitespace('\t') && IsWhitespace('\n') && IsWhitespace('\r')
    ensures IsWhitespace('\U{000B}') && IsWhitespace('\U{000C}') && IsWhitespace('\U{00A0}') && IsWhitespace('\U{3000}')
    ensures !IsValueChar(' ') && !IsValueChar('\n') && !IsValueChar('>')
    ensures IsValueChar('"') && IsValueChar('\'') && IsValueChar('<') && IsValueChar('/') && IsValueChar('a')
  {
  }

  /** The text a match captures: a first character other than a double quote,
      then at least one value character. */
  predicate IsCapture(v: string) {
    |v| >= 2 && v[0] != '"' && forall k :: 1 <= k < |v| ==> IsValueChar(v[k])
  }

  /** The pattern matches at the start of `u` exactly when `u` starts with
      `<a href=` followed by some capture, and the match takes the longest
      such capture. */
  lemma MatchIsLongestCapture(u: string)
    ensures Matches(u) <==>
      && |u| >= |Prefix| && u[..|Prefix|] == Prefix
      && exists n :: |Prefix| <= n <= |u| && IsCapture(u[|Prefix|..n])
    ensures Matches(u) ==> IsCapture(u[|Prefix|..MatchEnd(u)])
    ensures Matches(u) ==> forall n :: MatchEnd(u) < n <= |u| ==> !IsCapture(u[|Prefix|..n])
  {
    if Matches(u) {
      MatchCapture(u);
      var m := MatchEnd(u);
      forall n | m < n <= |u|
        ensures !IsCapture(u[|Prefix|..n])
      {
        var v, tail := u[|Prefix|..n], u[|Prefix| + 1..];
        assert u[m] == tail[m - |Prefix| - 1];
        assert !IsValueChar(u[m]);
        assert v[m - |Prefix|] == u[m];
      }
    } else if |u| >= |Prefix| && u[..|Prefix|] == Prefix {
      forall n | |Prefix| <= n <= |u|
        ensures !IsCapture(u[|Prefix|..n])
      {
        var v := u[|Prefix|..n];
        if |v| >= 2 {
          assert v[0] == u[|Prefix|] && v[1] == u[|Prefix| + 1];
        }
      }
    }
  }

  /** What the scan makes of the input: single copied characters and matches,
      the latter carrying their captured value. */
  datatype Piece = Copied(c: char) | Quoted(value: string)

  lemma MatchCapture(u: string)
    requires Matches(u)
    ensures IsCapture(u[|Prefix|..MatchEnd(u)])
  {
    var v, tail := u[|Prefix|..MatchEnd(u)], u[|Prefix| + 1..];
    forall k | 1 <= k < |v|
      ensures IsValueChar(v[k])
    {
      assert v[k] == tail[k - 1];
    }
  }

  /** The left-to-right scan of the regular expression engine. */
  function Scan(u: string): seq<Piece>
    decreases |u|
  {
    if |u| == 0 then []
    else if Matches(u) then [Quoted(u[|Prefix|..MatchEnd(u)])] + Scan(u[MatchEnd(u)..])
    else [Copied(u[0])] + Scan(u[1..])
  }

  /** Every capture is well formed, and it is maximal: what follows a match
      is a copied whitespace or `>` character, or nothing. */
  predicate WellFormedPieces(ps: seq<Piece>) {
    && (forall i :: 0 <= i < |ps| && ps[i].Quoted? ==> IsCapture(ps[i].value))
    && (forall i :: 0 <= i < |ps| - 1 && ps[i].Quoted? ==> ps[i + 1].Copied? && !IsValueChar(ps[i + 1].c))
  }

  /** The pieces of every scan are well formed. */
  lemma {:induction false} ScanPiecesWellFormed(u: string)
    ensures WellFormedPieces(Scan(u))
    decreases |u|
  {
    if |u| > 0 {
      var m := if Matches(u) then MatchEnd(u) else 1;
      ScanFirstPiece(u);
      ScanPiecesWellFormed(u[m..]);
      if Matches(u) {
        MatchFollowedByCopy(u);
      }
      WellFormedCons(Scan(u));
    }
  }

  /** A match is followed by a copied character that is not a value
      character, or by nothing. */
  lemma MatchFollowedByCopy(u: string)
    requires Matches(u)
    ensures var m := MatchEnd(u);
      m < |u| ==> |Scan(u[m..])| > 0 && Scan(u[m..])[0] == Copied(u[m]) && !IsValueChar(u[m])
  {
    var m := MatchEnd(u);
    if m < |u| {
      var tail := u[|Prefix| + 1..];
      assert u[m] == tail[m - |Prefix| - 1];
      assert !IsValueChar(u[m]);
      assert u[m..][0] == u[m];
      assert !Matches(u[m..]);
      assert Scan(u[m..]) == [Copied(u[m])] + Scan(u[m + 1..]);
    }
  }

  lemma WellFormedCons(ps: seq<Piece>)
    requires |ps| > 0 && WellFormedPieces(ps[1..])
    requires ps[0].Quoted? ==> IsCapture(ps[0].value)
    requires ps[0].Quoted? && |ps| > 1 ==> ps[1].Copied? && !IsValueChar(ps[1].c)
    ensures WellFormedPieces(ps)
  {
    forall i | 1 <= i < |ps|
      ensures ps[i] == ps[1..][i - 1]
    {
    }
  }

  /** The text a piece was scanned from. */
  function Source(p: Piece): string {
    match p
    case Copied(c) => [c]
    case Quoted(v) => Prefix + v
  }

  /** What a match with captured value `v` is rewritten to: `<a href="v"`. */
  function QuotedSite(v: string): string {
    Prefix + "\"" + v + "\""
  }

  /** The text a piece is rewritten to. */
  function Output(p: Piece): string {
    match p
    case Copied(c) => [c]
    case Quoted(v) => QuotedSite(v)
  }

  /** The pieces' source texts in order: the rewritten text with the two
      inserted quotes of every match deleted. */
  function Consumed(ps: seq<Piece>): string {
    if ps == [] then [] else Source(ps[0]) + Consumed(ps[1..])
  }

  function Emitted(ps: seq<Piece>): string {
    if ps == [] then [] else Output(ps[0]) + Emitted(ps[1..])
  }

  function QuotedCount(ps: seq<Piece>): nat {
    if ps == [] then 0 else (if ps[0].Quoted? then 1 else 0) + QuotedCount(ps[1..])
  }

  /** `re.sub(r'<a href=([^"][^\s>]+)', r'<a href="\1"', u)`: the text is
      two characters longer per match, for the inserted quotes. */
  function Rewrite(u: string): (r: string)
    ensures |r| == |u| + 2 * QuotedCount(Scan(u))
  {
    EmittedLength(Scan(u));
    ScanConsumesInput(u);
    Emitted(Scan(u))
  }

  lemma EmittedStep(ps: seq<Piece>, first: string, rest: string)
    requires |ps| > 0 && Output(ps[0]) == first && Emitted(ps[1..]) == rest
    ensures Emitted(ps) == first + rest
  {
  }

  /** A match at the start is rewritten and skipped. */
  lemma RewriteMatchStep(u: string)
    requires Matches(u)
    ensures Rewrite(u) == QuotedSite(u[|Prefix|..MatchEnd(u)]) + Rewrite(u[MatchEnd(u)..])
  {
    var m := MatchEnd(u);
    assert Scan(u) == [Quoted(u[|Prefix|..m])] + Scan(u[m..]);
    EmittedStep(Scan(u), QuotedSite(u[|Prefix|..m]), Rewrite(u[m..]));
  }

  /** Where no match starts, one character is copied. */
  lemma RewriteCopyStep(u: string)
    requires |u| > 0 && !Matches(u)
    ensures Rewrite(u) == [u[0]] + Rewrite(u[1..])
  {
    assert Scan(u) == [Copied(u[0])] + Scan(u[1..]);
    EmittedStep(Scan(u), [u[0]], Rewrite(u[1..]));
  }

  /** One step of the scan: a match is rewritten and skipped, otherwise one
      character is copied. */
  lemma RewriteStep(u: string)
    ensures |u| == 0 ==> Rewrite(u) == []
    ensures |u| > 0 && Matches(u) ==>
      Rewrite(u) == QuotedSite(u[|Prefix|..MatchEnd(u)]) + Rewrite(u[MatchEnd(u)..])
    ensures |u| > 0 && !Matches(u) ==> Rewrite(u) == [u[0]] + Rewrite(u[1..])
  {
    if |u| > 0 && Matches(u) {
      RewriteMatchStep(u);
    } else if |u| > 0 {
      RewriteCopyStep(u);
    }
  }

  /** The first piece of the scan and where the scan resumes after it. */
  lemma ScanFirstPiece(u: string)
    requires |u| > 0
    ensures var m := if Matches(u) then MatchEnd(u) else 1;
      && |Scan(u)| > 0
      && Scan(u)[0] == (if Matches(u) then Quoted(u[|Prefix|..m]) else Copied(u[0]))
      && Scan(u)[1..] == Scan(u[m..])
      && Source(Scan(u)[0]) == u[..m]
  {
    if Matches(u) {
      var m := MatchEnd(u);
      var p := Quoted(u[|Prefix|..m]);
      assert Scan(u) == [p] + Scan(u[m..]);
      assert Source(p) == Prefix + u[|Prefix|..m];
      assert u[..|Prefix|] == Prefix;
      assert u[..m] == u[..|Prefix|] + u[|Prefix|..m];
    } else {
      assert Scan(u) == [Copied(u[0])] + Scan(u[1..]);
    }
  }

  /** The pieces consume `u` when the first consumes its first `m`
      characters and the others the rest. */
  lemma ConsumedSplit(ps: seq<Piece>, u: string, m: nat)
    requires m <= |u| && |ps| > 0
    requires Source(ps[0]) == u[..m] && Consumed(ps[1..]) == u[m..]
    ensures Consumed(ps) == u
  {
    assert u[..m] + u[m..] == u;
  }

  /** Deleting the inserted quotes gives back the input: the scan covers the
      whole input, and copied text is kept as it is. */
  lemma {:induction false} ScanConsumesInput(u: string)
    ensures Consumed(Scan(u)) == u
    decreases |u|
  {
    if |u| > 0 {
      var m := if Matches(u) then MatchEnd(u) else 1;
      ScanFirstPiece(u);
      ScanConsumesInput(u[m..]);
      ConsumedSplit(Scan(u), u, m);
    }
  }

  /** Every piece's output is its source plus two quotes for a match. */
  lemma {:induction false} EmittedLength(ps: seq<Piece>)
    ensures |Emitted(ps)| == |Consumed(ps)| + 2 * QuotedCount(ps)
  {
    if ps != [] {
      EmittedLength(ps[1..]);
    }
  }

  /** Where no match starts before index `k`, the first `k + 8` characters
      (the whole text, if shorter) are left as they are. */
  lemma {:induction false} RewriteKeepsPrefix(w: string, k: nat)
    requires forall q :: 0 <= q < k && q <= |w| ==> !Matches(w[q..])
    ensures k + |Prefix| <= |w| ==> |Rewrite(w)| >= k + |Prefix| && Rewrite(w)[..k + |Prefix|] == w[..k + |Prefix|]
    ensures k + |Prefix| > |w| ==> Rewrite(w) == w
    decreases |w|, 1
  {
    if |w| == 0 {
      RewriteStep(w);
    } else if Matches(w) {
      assert w[0..] == w;
      RewriteKeepsMatchPrefix(w);
    } else {
      RewriteKeepsPrefixAfterCopy(w, k);
    }
  }

  lemma {:induction false} RewriteKeepsPrefixAfterCopy(w: string, k: nat)
    requires |w| > 0 && !Matches(w)
    requires forall q :: 0 <= q < k && q <= |w| ==> !Matches(w[q..])
    ensures k + |Prefix| <= |w| ==> |Rewrite(w)| >= k + |Prefix| && Rewrite(w)[..k + |Prefix|] == w[..k + |Prefix|]
    ensures k + |Prefix| > |w| ==> Rewrite(w) == w
    decreases |w|, 0
  {
    RewriteCopyStep(w);
    var k' := if k > 0 then k - 1 else 0;
    NoMatchInTail(w, k, k');
    RewriteKeepsPrefix(w[1..], k');
    var r := Rewrite(w[1..]);
    if k' + |Prefix| <= |w| - 1 {
      if k + |Prefix| <= |w| {
        ConsKeepsPrefix(Rewrite(w), w, r, k' + |Prefix|, k + |Prefix|);
      }
    } else {
      ConsKeepsWhole(Rewrite(w), w, r);
    }
  }

  lemma NoMatchInTail(w: string, k: nat, k': nat)
    requires |w| > 0 && k' <= k && (k > 0 ==> k' < k)
    requires forall q :: 0 <= q < k && q <= |w| ==> !Matches(w[q..])
    ensures forall q :: 0 <= q < k' && q <= |w[1..]| ==> !Matches(w[1..][q..])
  {
    forall q | 0 <= q < k' && q <= |w[1..]|
      ensures !Matches(w[1..][q..])
    {
      assert w[1..][q..] == w[q + 1..];
    }
  }

  lemma RewriteKeepsMatchPrefix(w: string)
    requires Matches(w)
    ensures |Rewrite(w)| >= |Prefix| && Rewrite(w)[..|Prefix|] == w[..|Prefix|]
  {
    RewriteMatchStep(w);
    SiteStartsWithPrefix(w[|Prefix|..MatchEnd(w)], Rewrite(w[MatchEnd(w)..]));
  }

  /** Copying the first character keeps any prefix the rest keeps, one
      character longer. */
  lemma ConsKeepsPrefix(t: string, w: string, r: string, m: nat, n: nat)
    requires |w| > 0 && t == [w[0]] + r
    requires m + 1 <= |w| && m <= |r| && r[..m] == w[1..][..m]
    requires n <= m + 1
    ensures |t| >= n && t[..n] == w[..n]
  {
    forall j | 0 <= j < n
      ensures t[j] == w[j]
    {
      if j > 0 {
        assert t[j] == r[j - 1] == r[..m][j - 1];
      }
    }
  }

  /** Copying the first character in front of the unchanged rest gives the
      text back; apart so that its caller's proof stays small. */
  lemma ConsKeepsWhole(t: string, w: string, r: string)
    requires |w| > 0 && t == [w[0]] + r && r == w[1..]
    ensures t == w
  {
  }

  lemma SiteStartsWithPrefix(v: string, rest: string)
    ensures |QuotedSite(v) + rest| >= |Prefix| && (QuotedSite(v) + rest)[..|Prefix|] == Prefix
  {
  }

  /** No match starts anywhere in `t`. */
  ghost predicate NoMatch(t: string) {
    forall q :: 0 <= q <= |t| ==> !Matches(t[q..])
  }

  /** A text in which the pattern never matches is left as it is. */
  lemma {:induction false} RewriteWithoutMatch(t: string)
    requires NoMatch(t)
    ensures Rewrite(t) == t
  {
    RewriteKeepsPrefix(t, |t| + 1);
  }

  /** A text without `<` is left as it is. */
  lemma RewriteWithoutOpening(t: string)
    requires '<' !in t
    ensures Rewrite(t) == t
  {
    forall q | 0 <= q <= |t|
      ensures !Matches(t[q..])
    {
      if q < |t| {
        assert t[q..][0] == t[q];
      }
    }
    RewriteWithoutMatch(t);
  }

  /** A position where no match starts does not become one once the rest is
      rewritten. */
  lemma NoMatchAfterCopy(u: string)
    requires |u| > 0 && !Matches(u)
    ensures !Matches(Rewrite(u))
  {
    var t := Rewrite(u);
    if |u| >= |Prefix| && u[..|Prefix|] == Prefix {
      forall q | 0 <= q < |Prefix| && q <= |u|
        ensures !Matches(u[q..])
      {
        if q > 0 {
          assert u[q] == Prefix[q];
          assert Prefix[q] != '<';
          assert u[q..][0] == u[q];
        }
      }
      RewriteKeepsPrefix(u, |Prefix|);
      if 2 * |Prefix| <= |u| {
        assert t[..|Prefix|] == t[..2 * |Prefix|][..|Prefix|];
        assert t[|Prefix|] == u[|Prefix|] && t[|Prefix| + 1] == u[|Prefix| + 1];
      }
    } else {
      RewriteKeepsPrefix(u, 1);
      if 1 + |Prefix| <= |u| {
        assert t[..|Prefix|] == t[..1 + |Prefix|][..|Prefix|];
      }
    }
  }

  /** The rewritten form of a match, `<a href="V"`, holds no match at any
      of its positions, whatever follows it. */
  lemma NoMatchInQuotedSite(v: string, rest: string, q: nat)
    requires IsCapture(v)
    requires q < |Prefix| + |v| + 2
    ensures !Matches((QuotedSite(v) + rest)[q..])
  {
    var t := QuotedSite(v) + rest;
    var close := |Prefix| + 1 + |v|;
    assert t[|Prefix|] == '"' && t[close] == '"';
    if q == 0 {
      assert t[q..][|Prefix|] == '"';
    } else if q < |Prefix| {
      assert t[q] == Prefix[q] != '<';
      assert t[q..][0] == t[q];
    } else if q == |Prefix| || q == close {
      assert t[q..][0] == '"';
    } else if q + 2 < close {
      assert t[q + 2] == v[q + 1 - |Prefix|];
      assert IsValueChar(t[q + 2]);
      assert t[q..][2] == t[q + 2];
      assert Prefix[2] == ' ' && !IsValueChar(' ');
    } else if q + 2 == close {
      assert t[q..][2] == '"';
    } else {
      assert t[q..][1] == '"';
    }
  }

  /** The rewritten text contains no match. */
  lemma {:induction false} RewriteHasNoMatch(u: string)
    ensures NoMatch(Rewrite(u))
    decreases |u|
  {
    if |u| > 0 && Matches(u) {
      RewriteMatchStep(u);
      var m := MatchEnd(u);
      MatchCapture(u);
      RewriteHasNoMatch(u[m..]);
      NoMatchAfterSite(u[|Prefix|..m], Rewrite(u[m..]));
    } else if |u| > 0 {
      RewriteCopyStep(u);
      RewriteHasNoMatch(u[1..]);
      NoMatchAfterCopy(u);
      NoMatchAfterChar(Rewrite(u), Rewrite(u[1..]));
    }
  }

  lemma NoMatchAfterSite(v: string, rest: string)
    requires IsCapture(v) && NoMatch(rest)
    ensures NoMatch(QuotedSite(v) + rest)
  {
    var t, site := QuotedSite(v) + rest, QuotedSite(v);
    forall q | 0 <= q <= |t|
      ensures !Matches(t[q..])
    {
      if q < |site| {
        NoMatchInQuotedSite(v, rest, q);
      } else {
        assert t[q..] == rest[q - |site|..];
      }
    }
  }

  lemma NoMatchAfterChar(t: string, rest: string)
    requires |t| > 0 && t[1..] == rest && !Matches(t) && NoMatch(rest)
    ensures NoMatch(t)
  {
    forall q | 0 <= q <= |t|
      ensures !Matches(t[q..])
    {
      if q == 0 {
        assert t[0..] == t;
      } else {
        assert t[q..] == rest[q - 1..];
      }
    }
  }

  /** Rewriting twice is rewriting once. */
  lemma RewriteIdempotent(u: string)
    ensures Rewrite(Rewrite(u)) == Rewrite(u)
  {
    RewriteHasNoMatch(u);
    RewriteWithoutMatch(Rewrite(u));
  }

  /** A value that already starts with a double quote is not matched: the
      scan copies the `<` and the text up to the quote stays as it is. */
  lemma AlreadyQuotedKept(u: string)
    requires |u| > |Prefix| && u[..|Prefix|] == Prefix && u[|Prefix|] == '"'
    ensures Scan(u)[0] == Copied('<')
    ensures |Rewrite(u)| >= |Prefix| + 1 && Rewrite(u)[..|Prefix| + 1] == u[..|Prefix| + 1]
  {
    assert u[0] == Prefix[0];
    RewriteKeepsPrefix(u, 1);
  }

  /** A one-character value is not matched, since the run after the first
      character must not be empty. */
  lemma OneCharacterValueKept()
    ensures Rewrite("<a href=x>") == "<a href=x>"
  {
    var u := "<a href=x>";
    forall q | 0 <= q < 3
      ensures !Matches(u[q..])
    {
      assert u[q..][0] == u[q];
    }
    RewriteKeepsPrefix(u, 3);
  }

  /** An unquoted value is quoted, up to the `>` that ends it. */
  lemma QuotesUnquotedValue()
    ensures Rewrite("<a href=foo>") == "<a href=\"foo\">"
  {
    var u := "<a href=foo>";
    assert u[..|Prefix|] == Prefix;
    assert u[|Prefix| + 1..] == "oo>";
    assert RunLength(">") == 0 && RunLength("o>") == 1 && RunLength("oo>") == 2;
    RewriteMatchStep(u);
    assert u[MatchEnd(u)..] == ">";
    RewriteKeepsPrefix(">", 1);
  }

  /** The tail of a tag, with no `<`, is kept as it is. */
  lemma AttributeTailKept()
    ensures Rewrite(" href=yy>") == " href=yy>"
  {
    var t := " href=yy>";
    assert '<' !in t;
    RewriteWithoutOpening(t);
  }

  /** A match is the whole run of value characters after its first
      character: `<a href=` + c + run, followed by whitespace, `>` or the end,
      becomes `<a href="` + c + run + `"`, and the scan resumes after the run. */
  lemma RewriteMatchThenRest(c: char, run: string, rest: string)
    requires c != '"' && |run| >= 1
    requires forall k :: 0 <= k < |run| ==> IsValueChar(run[k])
    requires rest == [] || !IsValueChar(rest[0])
    ensures Rewrite(Prefix + [c] + run + rest) == QuotedSite([c] + run) + Rewrite(rest)
  {
    var u := Prefix + [c] + run + rest;
    var end := |Prefix| + 1 + |run|;
    MatchShape(c, run, rest);
    RewriteAtMatch(u, 0, end);
    assert u[0..] == u;
    assert u[|Prefix|..end] == [c] + run;
    assert u[end..] == rest;
  }

  lemma MatchShape(c: char, run: string, rest: string)
    requires c != '"' && |run| >= 1
    requires forall k :: 0 <= k < |run| ==> IsValueChar(run[k])
    requires rest == [] || !IsValueChar(rest[0])
    ensures var u, end := Prefix + [c] + run + rest, |Prefix| + 1 + |run|;
      && MatchesAtCursor(u, 0)
      && (forall k :: |Prefix| + 1 <= k < end ==> IsValueChar(u[k]))
      && (end == |u| || !IsValueChar(u[end]))
  {
    var u, end := Prefix + [c] + run + rest, |Prefix| + 1 + |run|;
    assert u[0..|Prefix|] == Prefix;
    forall k | |Prefix| + 1 <= k < end
      ensures IsValueChar(u[k])
    {
      assert u[k] == run[k - |Prefix| - 1];
    }
    if rest != [] {
      assert u[end] == rest[0];
    }
  }

  /** Matches do not overlap: an `<a href=` starting inside the value of an
      earlier match loses its `<a` to that match and is not rewritten. */
  lemma MatchesDoNotOverlap()
    ensures Rewrite(Prefix + "x" + "<a" + " href=yy>") == QuotedSite("x" + "<a") + " href=yy>"
  {
    var run, rest := "<a", " href=yy>";
    assert IsValueChar(run[0]) && IsValueChar(run[1]);
    assert !IsValueChar(rest[0]);
    RewriteMatchThenRest('x', run, rest);
    AttributeTailKept();
  }

  /** The pattern matches at `content[p..]` exactly when this test, which
      reads the text in place, succeeds. */
  predicate MatchesAtCursor(content: string, p: nat) {
    && p + |Prefix| + 2 <= |content|
    && content[p..p + |Prefix|] == Prefix
    && content[p + |Prefix|] != '"'
    && IsValueChar(content[p + |Prefix| + 1])
  }

  /** A run of `n` value characters ended by a non-value character or the end
      of the text is the greedy run. */
  lemma {:induction false} RunLengthIs(s: string, n: nat)
    requires n <= |s|
    requires forall k :: 0 <= k < n ==> IsValueChar(s[k])
    requires n == |s| || !IsValueChar(s[n])
    ensures RunLength(s) == n
  {
    if n > 0 {
      assert forall k :: 0 <= k < n - 1 ==> s[1..][k] == s[k + 1];
      RunLengthIs(s[1..], n - 1);
    }
  }

  lemma RewriteAtMatch(content: string, p: nat, end: nat)
    requires MatchesAtCursor(content, p)
    requires p + |Prefix| + 2 <= end <= |content|
    requires forall k :: p + |Prefix| + 1 <= k < end ==> IsValueChar(content[k])
    requires end == |content| || !IsValueChar(content[end])
    ensures Rewrite(content[p..]) == QuotedSite(content[p + |Prefix|..end]) + Rewrite(content[end..])
  {
    var u := content[p..];
    MatchEndAtCursor(content, p, end);
    var m := end - p;
    RewriteMatchEndingAt(u, m);
    CursorSlices(content, p, m, end);
    RewriteSiteCongruence(u, u[|Prefix|..m], content[p + |Prefix|..end], u[m..], content[end..]);
  }

  /** The cursor test and the end of the value run found in place give the
      match and its end. */
  lemma CursorSlices(content: string, p: nat, m: nat, end: nat)
    requires |Prefix| <= m && p + m == end <= |content|
    ensures content[p..][|Prefix|..m] == content[p + |Prefix|..end]
    ensures content[p..][m..] == content[end..]
  {
    SliceOfSuffix(content, p, |Prefix|, m);
    SliceOfSuffix(content, p, m, |content| - p);
    assert content[p..][m..] == content[p..][m..|content| - p];
  }

  lemma RewriteMatchEndingAt(u: string, m: nat)
    requires Matches(u) && MatchEnd(u) == m
    ensures Rewrite(u) == QuotedSite(u[|Prefix|..m]) + Rewrite(u[m..])
  {
    RewriteMatchStep(u);
  }

  lemma MatchEndAtCursor(content: string, p: nat, end: nat)
    requires MatchesAtCursor(content, p)
    requires p + |Prefix| + 2 <= end <= |content|
    requires forall k :: p + |Prefix| + 1 <= k < end ==> IsValueChar(content[k])
    requires end == |content| || !IsValueChar(content[end])
    ensures Matches(content[p..]) && MatchEnd(content[p..]) == end - p
  {
    var u := content[p..];
    assert u[..|Prefix|] == content[p..p + |Prefix|];
    var start := p + |Prefix| + 1;
    var tail := u[|Prefix| + 1..];
    assert tail == content[start..];
    RunLengthIs(tail, end - start);
  }

  /** Substitutes equals in a rewrite step; apart so that its caller's proof
      stays small. */
  lemma RewriteSiteCongruence(u: string, v: string, v': string, r: string, r': string)
    requires Rewrite(u) == QuotedSite(v) + Rewrite(r)
    requires v == v' && r == r'
    ensures Rewrite(u) == QuotedSite(v') + Rewrite(r')
  {
  }

  lemma SliceOfSuffix(s: string, p: nat, i: nat, j: nat)
    requires p <= |s| && i <= j <= |s| - p
    ensures s[p..][i..j] == s[p + i..p + j]
  {
    assert forall k :: 0 <= k < j - i ==> s[p..][i..j][k] == s[p + i + k];
  }

  lemma RewriteAtCopy(content: string, p: nat)
    requires p < |content| && !MatchesAtCursor(content, p)
    ensures Rewrite(content[p..]) == [content[p]] + Rewrite(content[p + 1..])
  {
    var u := content[p..];
    if |u| >= |Prefix| + 2 {
      assert u[..|Prefix|] == content[p..p + |Prefix|];
    }
    RewriteCopyStep(u);
    assert u[1..] == content[p + 1..];
  }

  /** Associativity of `+` for the loop's output; apart so that its caller's
      proof stays small. */
  lemma Reassociate(done: string, piece: string, rest: string, after: string)
    requires rest == piece + after
    ensures done + rest == (done + piece) + after
  {
  }

  /** The greedy `[^\s>]+` from `start`: the end of the longest run of value
      characters there. */
  method ValueRunEnd(content: string, start: nat) returns (end: nat)
    requires start < |content| && IsValueChar(content[start])
    ensures start < end <= |content|
    ensures forall k :: start <= k < end ==> IsValueChar(content[k])
    ensures end == |content| || !IsValueChar(content[end])
  {
    end := start + 1;
    while end < |content| && IsValueChar(content[end])
      invariant start < end <= |content|
      invariant forall k :: start <= k < end ==> IsValueChar(content[k])
    {
      end := end + 1;
    }
  }

  /** The quoting loop: a cursor over the text, rewriting each match and
      copying every other character. */
  method QuoteHrefs(content: string) returns (result: string)
    ensures result == Rewrite(content)
  {
    result := "";
    var p := 0;
    while p < |content|
      invariant 0 <= p <= |content|
      invariant result + Rewrite(content[p..]) == Rewrite(content)
    {
      if MatchesAtCursor(content, p) {
        var end := ValueRunEnd(content, p + |Prefix| + 1);
        var site := QuotedSite(content[p + |Prefix|..end]);
        RewriteAtMatch(content, p, end);
        Reassociate(result, site, Rewrite(content[p..]), Rewrite(content[end..]));
        result := result + site;
        p := end;
      } else {
        RewriteAtCopy(content, p);
        Reassociate(result, [content[p]], Rewrite(content[p..]), Rewrite(content[p + 1..]));
        result := result + [content[p]];
        p := p + 1;
      }
    }
    RewriteStep(content[|content|..]);
  }
}
