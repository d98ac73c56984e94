/**
 * The Markdown "escape" applied to the display name (commands/start.js, line 26):
 *
 *     username.replace(/[_*[\\]()~`>#+=|{}.!-]/g, '\\$&')
 *
 * Read as JavaScript reads it, `[_*[\\]` is a character class holding `_`, `*`,
 * `[` and a backslash, and the `]` right after the escaped backslash closes it.
 * The rest is regex syntax, so the pattern is the alternation of
 *
 *   branch A: `[_*[\\]` `()` `~` `` ` `` `>` `#+` `=`
 *             a class character, an empty group, the three characters ~`>,
 *             one or more '#', then '='
 *   branch B: `{}` `.` `!-]`
 *             the two characters {}, any character but a line terminator, then !-]
 *
 * and the replacement `'\\$&'` puts a single backslash in front of each match
 * found by the global, left-to-right, non-overlapping scan.
 */
module Escape {
  import opened Wrappers

  /** A member of the class `[_*[\\]` that opens branch A. */
  predicate IsClassChar(c: char)
  {
    c == '_' || c == '*' || c == '[' || c == '\\'
  }

  /** The characters JavaScript counts as line terminators; `.` matches none of them. */
  predicate IsLineTerminator(c: char)
  {
    c == '\n' || c == '\r' || c == '\U{2028}' || c == '\U{2029}'
  }

  /** The first character of every match: a class character of branch A, or the `{` of branch B. */
  predicate CanStartMatch(c: char)
  {
    IsClassChar(c) || c == '{'
  }

  // ---------------------------------------------------------------------------
  // The language of the pattern, stated declaratively
  // ---------------------------------------------------------------------------

  /** `w` is a whole word of branch A. */
  predicate InBranchA(w: string)
  {
    && 6 <= |w|
    && IsClassChar(w[0]) && w[1] == '~' && w[2] == '`' && w[3] == '>'
    && (forall j :: 4 <= j < |w| - 1 ==> w[j] == '#')
    && w[|w| - 1] == '='
  }

  /** `w` is a whole word of branch B. */
  predicate InBranchB(w: string)
  {
    && |w| == 6
    && w[0] == '{' && w[1] == '}' && !IsLineTerminator(w[2])
    && w[3] == '!' && w[4] == '-' && w[5] == ']'
  }

  /** `w` is a whole word of the line-26 pattern. */
  predicate InPattern(w: string)
  {
    InBranchA(w) || InBranchB(w)
  }

  // ---------------------------------------------------------------------------
  // The matcher: what the regex engine does at one position
  // ---------------------------------------------------------------------------

  /**
   * The positions in the pattern the engine can be at after reading part of a
   * match. The two branches begin with different characters and `#+` is
   * always followed by `=`, which is not `#`, so the engine never has to back
   * up and the pattern runs as a deterministic automaton.
   */
  datatype State =
    | Start
    | ATilde | ABacktick | AGreater | AFirstHash | AMoreHash
    | BClose | BAny | BBang | BDash | BBracket

  /** What reading one character does: move on, complete the match, or fail. */
  datatype Step = Go(next: State) | Accept | Reject

  function Next(q: State, c: char): Step
  {
    match q
    case Start => if IsClassChar(c) then Go(ATilde) else if c == '{' then Go(BClose) else Reject
    case ATilde => if c == '~' then Go(ABacktick) else Reject
    case ABacktick => if c == '`' then Go(AGreater) else Reject
    case AGreater => if c == '>' then Go(AFirstHash) else Reject
    case AFirstHash => if c == '#' then Go(AMoreHash) else Reject
    case AMoreHash => if c == '#' then Go(AMoreHash) else if c == '=' then Accept else Reject
    case BClose => if c == '}' then Go(BAny) else Reject
    case BAny => if IsLineTerminator(c) then Reject else Go(BBang)
    case BBang => if c == '!' then Go(BDash) else Reject
    case BDash => if c == '-' then Go(BBracket) else Reject
    case BBracket => if c == ']' then Accept else Reject
  }

  /** The fewest characters that still have to be read from state `q` to complete a match. */
  function MinLen(q: State): nat
  {
    match q
    case Start => 6
    case ATilde => 5
    case ABacktick => 4
    case AGreater => 3
    case AFirstHash => 2
    case AMoreHash => 1
    case BClose => 5
    case BAny => 4
    case BBang => 3
    case BDash => 2
    case BBracket => 1
  }

  /** Run the automaton from state `q` over `s`: the number of characters read when the match completes. */
  function Run(s: string, q: State): (r: Option<nat>)
    ensures r.Some? ==> MinLen(q) <= r.value <= |s|
    ensures r.Some? ==> Next(q, s[0]) != Reject
    decreases |s|
  {
    if s == [] then None
    else
      match Next(q, s[0])
      case Accept => Some(1)
      case Reject => None
      case Go(p) =>
        match Run(s[1..], p)
        case Some(k) => Some(k + 1)
        case None => None
  }

  /** The length of the match at the start of `s`, if there is one. */
  function MatchAt(s: string): (r: Option<nat>)
    ensures r.Some? ==> 6 <= r.value <= |s| && CanStartMatch(s[0])
  {
    Run(s, Start)
  }

  /** One character read at position `k`. */
  lemma RunGoesAt(s: string, k: nat, q: State, p: State, m: nat)
    requires k < |s| && Next(q, s[k]) == Go(p)
    ensures Run(s[k..], q) == Some(m) <==> 1 <= m && Run(s[k + 1..], p) == Some(m - 1)
  {
    assert s[k..][0] == s[k];
    assert s[k..][1..] == s[k + 1..];
  }

  /** The automaton fails at position `k`: the string ends, or the character is not the expected one. */
  lemma RunFailsAt(s: string, k: nat, q: State)
    requires k <= |s| && (k == |s| || Next(q, s[k]) == Reject)
    ensures Run(s[k..], q).None?
  {
    if k < |s| {
      assert s[k..][0] == s[k];
    }
  }

  /** From position `lo` on, `s` holds a run of '#' closed by '=' at position `hi - 1`. */
  predicate HashesThenEquals(s: string, lo: nat, hi: nat)
  {
    lo < hi <= |s| && s[hi - 1] == '=' && forall j :: lo <= j < hi - 1 ==> s[j] == '#'
  }

  /** The greedy loop of `#+` followed by `=`. */
  lemma {:induction false} MoreHashRun(s: string, k: nat, m: nat)
    requires k <= |s|
    ensures Run(s[k..], AMoreHash) == Some(m) <==> HashesThenEquals(s, k, k + m)
    decreases |s| - k
  {
    if k == |s| || (s[k] != '#' && s[k] != '=') {
      RunFailsAt(s, k, AMoreHash);
    } else if s[k] == '=' {
      assert s[k..][0] == s[k];
      assert Run(s[k..], AMoreHash) == Some(1);
    } else {
      RunGoesAt(s, k, AMoreHash, AMoreHash, m);
      if 1 <= m {
        MoreHashRun(s, k + 1, m - 1);
      }
    }
  }

  /** The first '#' of `#+`, then the greedy loop. */
  lemma FirstHashRun(s: string, k: nat, m: nat)
    requires k <= |s|
    ensures Run(s[k..], AFirstHash) == Some(m) <==>
      k < |s| && s[k] == '#' && 1 <= m && HashesThenEquals(s, k + 1, k + m)
  {
    if k == |s| || s[k] != '#' {
      RunFailsAt(s, k, AFirstHash);
    } else {
      RunGoesAt(s, k, AFirstHash, AMoreHash, m);
      if 1 <= m {
        MoreHashRun(s, k + 1, m - 1);
      }
    }
  }

  /** Branch A read from its first character: the match and its declarative description agree. */
  lemma BranchARun(s: string, n: nat)
    requires s != [] && IsClassChar(s[0]) && 6 <= n
    ensures Run(s, Start) == Some(n) <==>
      && 5 <= |s| && s[1] == '~' && s[2] == '`' && s[3] == '>' && s[4] == '#'
      && HashesThenEquals(s, 5, n)
  {
    assert s[0..] == s;
    RunGoesAt(s, 0, Start, ATilde, n);
    if |s| < 2 || s[1] != '~' {
      RunFailsAt(s, 1, ATilde);
    } else {
      RunGoesAt(s, 1, ATilde, ABacktick, n - 1);
      if |s| < 3 || s[2] != '`' {
        RunFailsAt(s, 2, ABacktick);
      } else {
        RunGoesAt(s, 2, ABacktick, AGreater, n - 2);
        if |s| < 4 || s[3] != '>' {
          RunFailsAt(s, 3, AGreater);
        } else {
          RunGoesAt(s, 3, AGreater, AFirstHash, n - 3);
          FirstHashRun(s, 4, n - 4);
        }
      }
    }
  }

  /** Branch B read from its first character: exactly six characters, `{}`, one that is not a line terminator, `!-]`. */
  lemma BranchBRun(s: string, n: nat)
    requires s != [] && s[0] == '{' && 6 <= n
    ensures Run(s, Start) == Some(n) <==>
      && n == 6 <= |s| && s[1] == '}' && !IsLineTerminator(s[2])
      && s[3] == '!' && s[4] == '-' && s[5] == ']'
  {
    assert s[0..] == s;
    RunGoesAt(s, 0, Start, BClose, n);
    if |s| < 2 || s[1] != '}' {
      RunFailsAt(s, 1, BClose);
    } else {
      RunGoesAt(s, 1, BClose, BAny, n - 1);
      if |s| < 3 || IsLineTerminator(s[2]) {
        RunFailsAt(s, 2, BAny);
      } else {
        RunGoesAt(s, 2, BAny, BBang, n - 2);
        if |s| < 4 || s[3] != '!' {
          RunFailsAt(s, 3, BBang);
        } else {
          RunGoesAt(s, 3, BBang, BDash, n - 3);
          if |s| < 5 || s[4] != '-' {
            RunFailsAt(s, 4, BDash);
          } else {
            RunGoesAt(s, 4, BDash, BBracket, n - 4);
            if |s| < 6 || s[5] != ']' {
              RunFailsAt(s, 5, BBracket);
            } else {
              assert s[5..][0] == s[5];
              assert Run(s[5..], BBracket) == Some(1);
            }
          }
        }
      }
    }
  }

  /**
   * The matcher is exact: it reports length `n` precisely when the first `n`
   * characters of `s` form a word of the pattern. Hence no backtracking is ever
   * needed, and at most one prefix of any string is a word of the pattern.
   */
  lemma MatchAtSpec(s: string, n: nat)
    ensures MatchAt(s) == Some(n) <==> n <= |s| && InPattern(s[..n])
  {
    if s == [] || !CanStartMatch(s[0]) {
      if s != [] {
        assert s[0..] == s;
        RunFailsAt(s, 0, Start);
      }
      if 1 <= n <= |s| {
        assert s[..n][0] == s[0];
      }
    } else if n < 6 {
    } else if IsClassChar(s[0]) {
      BranchARun(s, n);
      if n <= |s| {
        var w := s[..n];
        assert w[0] == s[0];
        if InBranchA(w) {
          assert w[4] == '#';
          assert HashesThenEquals(s, 5, n) by {
            forall j | 5 <= j < n - 1 ensures s[j] == '#' {
              assert w[j] == '#';
            }
          }
        }
      }
    } else {
      BranchBRun(s, n);
      if n <= |s| {
        var w := s[..n];
        assert w[0] == s[0];
      }
    }
  }

  /** Two words of the pattern cannot both be prefixes of one string. */
  lemma PatternPrefixUnique(s: string, n: nat, m: nat)
    requires n <= |s| && m <= |s|
    requires InPattern(s[..n]) && InPattern(s[..m])
    ensures n == m
  {
    MatchAtSpec(s, n);
    MatchAtSpec(s, m);
  }

  /** A match depends only on the characters it covers. */
  lemma MatchPrefixStable(s: string, n: nat, y: string)
    requires MatchAt(s) == Some(n)
    ensures MatchAt(s[..n] + y) == Some(n)
  {
    MatchAtSpec(s, n);
    assert (s[..n] + y)[..n] == s[..n];
    MatchAtSpec(s[..n] + y, n);
  }

  /**
   * Inside a match, a backslash can only be the `.` of branch B, and then the
   * character after it is the `!` of `!-]`.
   */
  lemma BackslashInsideMatch(s: string, n: nat, f: nat)
    requires MatchAt(s) == Some(n)
    requires 1 <= f < n && s[f] == '\\'
    ensures f + 1 < n && s[f + 1] == '!'
  {
    MatchAtSpec(s, n);
    var w := s[..n];
    assert w[f] == '\\';
  }

  // ---------------------------------------------------------------------------
  // The replacement
  // ---------------------------------------------------------------------------

  /**
   * `s.replace(pattern, '\\$&')`: scanning left to right, a backslash goes in
   * front of each match and the scan resumes after it; a position where no
   * match starts is copied as it is.
   */
  function Escape(s: string): (r: string)
    ensures |s| <= |r|
    ensures 6 * |r| <= 7 * |s|
    decreases |s|
  {
    if s == [] then []
    else
      match MatchAt(s)
      case Some(n) => ['\\'] + s[..n] + Escape(s[n..])
      case None => [s[0]] + Escape(s[1..])
  }

  /**
   * Reads an escaped string back: a backslash that stands in front of a match
   * is dropped, everything else is kept.
   */
  function Unescape(t: string): (s: string)
    ensures |s| <= |t|
    decreases |t|
  {
    if t == [] then []
    else if t[0] == '\\' && MatchAt(t[1..]).Some? then
      var n := MatchAt(t[1..]).value;
      t[1..1 + n] + Unescape(t[1 + n..])
    else
      [t[0]] + Unescape(t[1..])
  }

  // ---------------------------------------------------------------------------
  // The global scan, as `String.prototype.replace` with a `g` regex performs it
  // ---------------------------------------------------------------------------

  /** The leftmost position at or after `from` where a match starts. */
  function NextMatch(s: string, from: nat): (r: Option<nat>)
    requires from <= |s|
    ensures r.Some? ==> from <= r.value < |s| && MatchAt(s[r.value..]).Some?
    ensures r.Some? ==> forall j :: from <= j < r.value ==> MatchAt(s[j..]).None?
    ensures r.None? ==> forall j :: from <= j < |s| ==> MatchAt(s[j..]).None?
    decreases |s| - from
  {
    if from == |s| then None
    else if MatchAt(s[from..]).Some? then Some(from)
    else NextMatch(s, from + 1)
  }

  /**
   * The start positions of the matches the global scan finds from `from` on:
   * each finds a match, each begins at or after the end of the one before, and
   * every position from `from` on where a match starts lies inside one of them.
   */
  function Matches(s: string, from: nat): (ms: seq<nat>)
    requires from <= |s|
    ensures forall k :: 0 <= k < |ms| ==> from <= ms[k] < |s| && MatchAt(s[ms[k]..]).Some?
    ensures forall a, b :: 0 <= a < b < |ms| ==> ms[a] + MatchAt(s[ms[a]..]).value <= ms[b]
    decreases |s| - from
  {
    match NextMatch(s, from)
    case None => []
    case Some(i) => [i] + Matches(s, i + MatchAt(s[i..]).value)
  }

  /** Position `j` lies inside the match that starts at `p`. */
  predicate InsideMatch(s: string, p: nat, j: nat)
  {
    p <= j < |s| && MatchAt(s[p..]).Some? && j < p + MatchAt(s[p..]).value
  }

  /** Position `j` lies inside one of the matches listed in `ms`. */
  predicate Covered(s: string, ms: seq<nat>, j: nat)
    decreases |ms|
  {
    ms != [] && (InsideMatch(s, ms[0], j) || Covered(s, ms[1..], j))
  }

  /** Being covered means lying inside some listed match. */
  lemma {:induction false} CoveredMeans(s: string, ms: seq<nat>, j: nat)
    ensures Covered(s, ms, j) <==> exists k :: 0 <= k < |ms| && InsideMatch(s, ms[k], j)
    decreases |ms|
  {
    if ms != [] {
      CoveredMeans(s, ms[1..], j);
      if Covered(s, ms[1..], j) {
        var k :| 0 <= k < |ms[1..]| && InsideMatch(s, ms[1..][k], j);
        assert ms[k + 1] == ms[1..][k];
      }
      forall k | 1 <= k < |ms| && InsideMatch(s, ms[k], j)
        ensures Covered(s, ms[1..], j)
      {
        assert ms[1..][k - 1] == ms[k];
      }
    }
  }

  /** The scan leaves no match out: every position where a match starts lies inside a listed one. */
  lemma {:induction false} MatchesComplete(s: string, from: nat, j: nat)
    requires from <= j < |s| && MatchAt(s[j..]).Some?
    ensures Covered(s, Matches(s, from), j)
    decreases |s| - from
  {
    var i, e := ScanStep(s, from, j);
    if j < e {
      CoveredHead(s, i, Matches(s, e), j);
    } else {
      MatchesComplete(s, e, j);
      CoveredPrepend(s, i, Matches(s, e), j);
    }
  }

  /**
   * One step of the scan towards a match start `j`: the next match starts at
   * `i`, no later than `j`, and the scan resumes at its end `e`.
   */
  lemma ScanStep(s: string, from: nat, j: nat) returns (i: nat, e: nat)
    requires from <= j < |s| && MatchAt(s[j..]).Some?
    ensures from <= i <= j && i < e <= |s| && from < e
    ensures MatchAt(s[i..]) == Some(e - i)
    ensures Matches(s, from) == [i] + Matches(s, e)
  {
    i := NextMatch(s, from).value;
    e := i + MatchAt(s[i..]).value;
    var ms := Matches(s, from);
    assert ms == [i] + Matches(s, e);
  }

  /** A position inside the first listed match is covered. */
  lemma CoveredHead(s: string, i: nat, rest: seq<nat>, j: nat)
    requires i <= j < |s| && MatchAt(s[i..]).Some? && j < i + MatchAt(s[i..]).value
    ensures Covered(s, [i] + rest, j)
  {
    assert ([i] + rest)[0] == i;
  }

  /** A position covered by a list of matches stays covered when one is put in front. */
  lemma CoveredPrepend(s: string, i: nat, rest: seq<nat>, j: nat)
    requires Covered(s, rest, j)
    ensures Covered(s, [i] + rest, j)
  {
    assert ([i] + rest)[1..] == rest;
  }


  // ---------------------------------------------------------------------------
  // Properties of the escape
  // ---------------------------------------------------------------------------

  /** Copying characters where no match starts. */
  lemma {:induction false} EscapeSkip(s: string, from: nat, i: nat)
    requires from <= i <= |s|
    requires forall j :: from <= j < i ==> MatchAt(s[j..]).None?
    ensures Escape(s[from..]) == s[from..i] + Escape(s[i..])
    decreases i - from
  {
    if from < i {
      calc {
        Escape(s[from..]);
        == { EscapeCopy(s, from); }
        [s[from]] + Escape(s[from + 1..]);
        == { EscapeSkip(s, from + 1, i); }
        [s[from]] + (s[from + 1..i] + Escape(s[i..]));
        ([s[from]] + s[from + 1..i]) + Escape(s[i..]);
        == { assert [s[from]] + s[from + 1..i] == s[from..i]; }
        s[from..i] + Escape(s[i..]);
      }
    }
  }

  /** Where no match starts, the escape copies the character. */
  lemma EscapeCopy(s: string, i: nat)
    requires i < |s| && MatchAt(s[i..]).None?
    ensures Escape(s[i..]) == [s[i]] + Escape(s[i + 1..])
  {
    assert s[i..][0] == s[i];
    assert s[i..][1..] == s[i + 1..];
  }

  /** At a match, the escape writes a backslash, the match, then escapes the rest. */
  lemma EscapeAtMatch(s: string, i: nat, n: nat)
    requires i < |s| && MatchAt(s[i..]) == Some(n)
    ensures i + n <= |s|
    ensures Escape(s[i..]) == ['\\'] + s[i..i + n] + Escape(s[i + n..])
  {
    assert s[i..][..n] == s[i..i + n];
    assert s[i..][n..] == s[i + n..];
  }

  /** With no match left, the scan finds nothing more. */
  lemma MatchesAtEnd(s: string, from: nat)
    requires from <= |s| && NextMatch(s, from).None?
    ensures Matches(s, from) == []
  {
    var ms := Matches(s, from);
    assert ms == [];
  }

  /** One step of the scan: the next match, then the matches after it. */
  lemma MatchesUnfold(s: string, from: nat, i: nat, n: nat)
    requires from <= |s| && NextMatch(s, from) == Some(i) && MatchAt(s[i..]) == Some(n)
    ensures i + n <= |s|
    ensures Matches(s, from) == [i] + Matches(s, i + n)
  {
    var ms := Matches(s, from);
    assert ms == [i] + Matches(s, i + n);
  }

  /** The length of the copied stretch before a match. */
  lemma SkipLength(s: string, from: nat, i: nat)
    requires from <= i <= |s|
    requires forall j :: from <= j < i ==> MatchAt(s[j..]).None?
    ensures |Escape(s[from..])| == i - from + |Escape(s[i..])|
  {
    EscapeSkip(s, from, i);
  }

  /** The length of the escaped match: the backslash and the match itself. */
  lemma MatchLength(s: string, i: nat, n: nat)
    requires i < |s| && MatchAt(s[i..]) == Some(n)
    ensures i + n <= |s|
    ensures |Escape(s[i..])| == 1 + n + |Escape(s[i + n..])|
  {
    EscapeAtMatch(s, i, n);
  }

  /**
   * From any position on, the escape adds exactly one character per match of
   * the global scan.
   */
  lemma {:induction false} EscapeLengthFrom(s: string, from: nat)
    requires from <= |s|
    ensures |Escape(s[from..])| == |s| - from + |Matches(s, from)|
    decreases |s| - from
  {
    var next := NextMatch(s, from);
    if next.None? {
      MatchesAtEnd(s, from);
      SkipLength(s, from, |s|);
    } else {
      var i := next.value;
      var n := MatchAt(s[i..]).value;
      MatchesUnfold(s, from, i, n);
      SkipLength(s, from, i);
      MatchLength(s, i, n);
      EscapeLengthFrom(s, i + n);
    }
  }

  /** Output length = input length + number of matches. */
  lemma EscapeLength(s: string)
    ensures |Escape(s)| == |s| + |Matches(s, 0)|
  {
    EscapeLengthFrom(s, 0);
    assert s[0..] == s;
  }

  /** An escaped string never begins with a match: its first character is never the start of one. */
  lemma {:induction false} EscapedHasNoLeadingMatch(u: string)
    ensures MatchAt(Escape(u)).None?
  {
    if u != [] {
      if MatchAt(u).Some? {
        assert Escape(u)[0] == '\\' && Escape(u)[1] == u[0];
      } else {
        NoNewMatchAtFront(u);
      }
    }
  }

  /**
   * Inserting the backslashes cannot create a match at the front: the only
   * place a match admits a backslash after its first character is the `.` of
   * branch B, which must be followed by `!`, while an inserted backslash is
   * always followed by the first character of a match.
   */
  lemma NoNewMatchAtFront(u: string)
    requires MatchAt(u).None?
    ensures MatchAt(Escape(u)).None?
  {
    match NextMatch(u, 0)
    case None =>
      EscapeWithoutMatches(u);
    case Some(f) =>
      FirstInsertion(u, f);
      NoMatchAcrossBackslash(u, Escape(u), f);
  }

  /**
   * A string that agrees with `u` up to position `f`, then has a backslash
   * followed by a character that can start a match, begins with no match when
   * `u` begins with none.
   */
  lemma NoMatchAcrossBackslash(u: string, e: string, f: nat)
    requires MatchAt(u).None?
    requires f <= |u| && f + 1 < |e|
    requires e[..f] == u[..f] && e[f] == '\\' && CanStartMatch(e[f + 1])
    ensures MatchAt(e).None?
  {
    if MatchAt(e).Some? {
      var n := MatchAt(e).value;
      if n <= f {
        assert e[..n] == e[..f][..n] == u[..f][..n] == u[..n];
        assert e[..n] + u[n..] == u;
        MatchPrefixStable(e, n, u[n..]);
      } else if f > 0 {
        BackslashInsideMatch(e, n, f);
      }
    }
  }

  /** A string in which no match starts is its own escape. */
  lemma EscapeWithoutMatches(u: string)
    requires NextMatch(u, 0).None?
    ensures Escape(u) == u
  {
    EscapeSkip(u, 0, |u|);
    assert u[0..] == u && u[..|u|] == u && u[|u|..] == [];
  }

  /** Where the first match of `u` starts, the escape has put its first backslash. */
  lemma FirstInsertion(u: string, f: nat)
    requires NextMatch(u, 0) == Some(f)
    ensures var e := Escape(u);
      f + 1 < |e| && f <= |u| && e[..f] == u[..f] && e[f] == '\\' && CanStartMatch(e[f + 1])
  {
    assert u[0..] == u;
    EscapeSkip(u, 0, f);
    var m := MatchAt(u[f..]).value;
    EscapeAtMatch(u, f, m);
    var tail := ['\\'] + u[f..f + m] + Escape(u[f + m..]);
    assert Escape(u) == u[..f] + tail;
    assert tail[0] == '\\' && tail[1] == u[f];
  }

  /** One step of the round trip over a match: its backslash is dropped and the match kept. */
  lemma UnescapeOverMatch(s: string, n: nat)
    requires MatchAt(s) == Some(n)
    ensures Unescape(Escape(s)) == s[..n] + Unescape(Escape(s[n..]))
  {
    var rest := Escape(s[n..]);
    var tail := s[..n] + rest;
    var t := ['\\'] + tail;
    assert Escape(s) == t;
    assert t[1..] == tail;
    MatchPrefixStable(s, n, rest);
    assert tail[..n] == s[..n] && tail[n..] == rest;
    assert t[1..1 + n] == s[..n] && t[1 + n..] == rest;
  }

  /** One step of the round trip over a copied character. */
  lemma UnescapeOverCopy(s: string)
    requires s != [] && MatchAt(s).None?
    ensures Unescape(Escape(s)) == [s[0]] + Unescape(Escape(s[1..]))
  {
    var rest := Escape(s[1..]);
    var t := [s[0]] + rest;
    assert Escape(s) == t;
    assert t[1..] == rest;
    EscapedHasNoLeadingMatch(s[1..]);
  }

  /** Round trip: the escaped string determines the original, and Unescape recovers it. */
  lemma {:induction false} UnescapeEscape(s: string)
    ensures Unescape(Escape(s)) == s
    decreases |s|
  {
    if s != [] {
      match MatchAt(s)
      case Some(n) =>
        calc {
          Unescape(Escape(s));
          == { UnescapeOverMatch(s, n); }
          s[..n] + Unescape(Escape(s[n..]));
          == { UnescapeEscape(s[n..]); }
          s[..n] + s[n..];
          == { assert s[..n] + s[n..] == s; }
          s;
        }
      case None =>
        calc {
          Unescape(Escape(s));
          == { UnescapeOverCopy(s); }
          [s[0]] + Unescape(Escape(s[1..]));
          == { UnescapeEscape(s[1..]); }
          [s[0]] + s[1..];
          == { assert [s[0]] + s[1..] == s; }
          s;
        }
    }
  }

  /** Every match contains `~` (branch A) or `{` (branch B), so without them nothing changes. */
  lemma {:induction false} EscapeKeepsPlainText(s: string)
    requires '~' !in s && '{' !in s
    ensures Escape(s) == s
    decreases |s|
  {
    if s != [] {
      assert s[0] in s;
      assert |s| >= 2 ==> s[1] in s;
      assert MatchAt(s).None?;
      assert forall c :: c in s[1..] ==> c in s;
      EscapeKeepsPlainText(s[1..]);
    }
  }

  /** An ordinary name passes unchanged, underscores and asterisks included. */
  lemma EscapeKeepsUnderscores()
    ensures Escape("a_b*c") == "a_b*c"
  {
    var s := "a_b*c";
    assert forall i :: 0 <= i < |s| ==> s[i] != '~' && s[i] != '{';
    EscapeKeepsPlainText(s);
  }

  /** The placeholder for a missing username passes unchanged. */
  lemma EscapeKeepsPlaceholder()
    ensures Escape("NoUsername") == "NoUsername"
  {
    var s := "NoUsername";
    assert forall i :: 0 <= i < |s| ==> s[i] != '~' && s[i] != '{';
    EscapeKeepsPlainText(s);
  }

  /** A word of branch A gets one backslash in front of it. */
  lemma EscapeBranchAExample()
    ensures Escape("_~`>##=") == "\\_~`>##="
  {
    var a := "_~`>##=";
    assert a[..7] == a && a[7..] == [];
    assert InBranchA(a);
    MatchAtSpec(a, 7);
  }

  /** A word of branch B inside a name gets one backslash in front of it. */
  lemma EscapeBranchBExample()
    ensures Escape("x{}y!-]") == "x\\{}y!-]"
  {
    var b := "x{}y!-]";
    var w := b[1..];
    assert b[0..] == b;
    RunFailsAt(b, 0, Start);
    assert w == "{}y!-]";
    assert w[..6] == w && w[6..] == [];
    assert InBranchB(w);
    MatchAtSpec(w, 6);
    assert Escape(w) == "\\{}y!-]";
  }
}
