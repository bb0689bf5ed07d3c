/**
 * The string helpers that bin/deployfs.mjs and index.mjs both define, character
 * for character the same: `splitOnSpaces`, `parseDestStr`, and the
 * `/-o\s*passive/g` deletion applied to the sshfs options.
 *
 * JavaScript regular expressions are written out as recursive functions that
 * walk the string the way a global `split` or `replace` does: left to right,
 * a match consumed whole before the search resumes behind it.
 */
module JsStrings {

  import opened Wrappers

  /** JavaScript's `\s` class: the ECMAScript WhiteSpace and LineTerminator code points. */
  predicate IsSpace(c: char) {
    if c <= ' ' then c == ' ' || '\t' <= c <= '\r'
    else if c < '\U{00A0}' then false
    else
      c == '\U{00A0}' || c == '\U{1680}' || '\U{2000}' <= c <= '\U{200A}'
      || c == '\U{2028}' || c == '\U{2029}' || c == '\U{202F}' || c == '\U{205F}'
      || c == '\U{3000}' || c == '\U{FEFF}'
  }

  /** `parts.join(sep)` */
  function Join(parts: seq<string>, sep: string): string {
    if |parts| == 0 then []
    else if |parts| == 1 then parts[0]
    else parts[0] + sep + Join(parts[1..], sep)
  }

  // ---------------------------------------------------------------------------
  // splitOnSpaces: str.split(/(?<!\\)\s/g).map((x) => x.replace(/\\(\s)/g, "$1"))
  // ---------------------------------------------------------------------------

  /**
   * The pieces of `str.split(/(?<!\\)\s/g)` for the remainder `s` of a string,
   * where `afterBackslash` says whether the character just before `s` is a
   * backslash (the look-behind inspects the original string, so a backslash
   * that is itself escaped still protects the blank after it).
   */
  function Pieces(s: string, afterBackslash: bool): (r: seq<string>)
    ensures |r| >= 1
    decreases |s|
  {
    if s == [] then [[]]
    else if IsSpace(s[0]) && !afterBackslash then [[]] + Pieces(s[1..], false)
    else Glue([s[0]], Pieces(s[1..], s[0] == '\\'))
  }

  /** Put `head` in front of the first piece. */
  function Glue(head: string, r: seq<string>): (g: seq<string>)
    requires |r| >= 1
    ensures |g| == |r| && g[0] == head + r[0] && g[1..] == r[1..]
  {
    [head + r[0]] + r[1..]
  }

  lemma GlueGlue(a: string, b: string, r: seq<string>)
    requires |r| >= 1
    ensures Glue(a, Glue(b, r)) == Glue(a + b, r)
  {
    assert a + (b + r[0]) == (a + b) + r[0];
  }

  lemma GlueNothing(r: seq<string>)
    requires |r| >= 1
    ensures Glue([], r) == r
  {
    assert [] + r[0] == r[0];
    assert [r[0]] + r[1..] == r;
  }

  /** `x.replace(/\\(\s)/g, "$1")`: drop each backslash that stands before a blank. */
  function Unescape(t: string): (r: string)
    ensures |r| <= |t|
  {
    if t == [] then []
    else if |t| >= 2 && t[0] == '\\' && IsSpace(t[1]) then [t[1]] + Unescape(t[2..])
    else [t[0]] + Unescape(t[1..])
  }

  function SplitOnSpaces(s: string): (r: seq<string>)
    ensures |r| >= 1
  {
    var p := Pieces(s, false);
    seq(|p|, k requires 0 <= k < |p| => Unescape(p[k]))
  }

  /** Whether position `i` of `s` is a blank that the split pattern matches. */
  predicate IsUnescapedSpace(s: string, i: nat)
    requires i < |s|
  {
    IsSpace(s[i]) && (i == 0 || s[i - 1] != '\\')
  }

  /** The number of positions below `n` at which `IsUnescapedSpace` holds. */
  function UnescapedSpacesBelow(s: string, n: nat): nat
    requires n <= |s|
  {
    if n == 0 then 0
    else UnescapedSpacesBelow(s, n - 1) + (if IsUnescapedSpace(s, n - 1) then 1 else 0)
  }

  lemma {:induction false} PiecesCountFrom(s: string, k: nat)
    requires k <= |s|
    ensures |Pieces(s[k..], k > 0 && s[k - 1] == '\\')|
            == UnescapedSpacesBelow(s, |s|) - UnescapedSpacesBelow(s, k) + 1
    decreases |s| - k
  {
    if k < |s| {
      PiecesCountFrom(s, k + 1);
      assert s[k..][1..] == s[k + 1..];
      UnescapedBelowMonotone(s, k + 1, |s|);
    }
  }

  lemma {:induction false} UnescapedBelowMonotone(s: string, m: nat, n: nat)
    requires m <= n <= |s|
    ensures UnescapedSpacesBelow(s, m) <= UnescapedSpacesBelow(s, n)
    decreases n - m
  {
    if m < n {
      UnescapedBelowMonotone(s, m, n - 1);
    }
  }

  /** splitOnSpaces yields one token more than there are unescaped blanks. */
  lemma SplitOnSpacesCount(s: string)
    ensures |SplitOnSpaces(s)| == UnescapedSpacesBelow(s, |s|) + 1
  {
    PiecesCountFrom(s, 0);
    assert s[0..] == s;
  }

  /** Unescape changes nothing in a token that has no backslash before a blank. */
  lemma {:induction false} UnescapeIdentity(t: string)
    requires forall i :: 0 <= i < |t| - 1 && t[i] == '\\' ==> !IsSpace(t[i + 1])
    ensures Unescape(t) == t
  {
    if t != [] {
      assert forall i :: 0 <= i < |t[1..]| - 1 && t[1..][i] == '\\' ==> !IsSpace(t[1..][i + 1]) by {
        forall i | 0 <= i < |t[1..]| - 1 && t[1..][i] == '\\' ensures !IsSpace(t[1..][i + 1]) {
          assert t[i + 1] == '\\';
        }
      }
      UnescapeIdentity(t[1..]);
    }
  }

  lemma {:induction false} PiecesNoSpace(s: string, flag: bool)
    requires forall i :: 0 <= i < |s| ==> !IsSpace(s[i])
    ensures Pieces(s, flag) == [s]
  {
    if s != [] {
      PiecesNoSpace(s[1..], s[0] == '\\');
      assert [s[0]] + s[1..] == s;
    }
  }

  /** A string without any blank is a single token, returned unchanged. */
  lemma SplitOnSpacesNoSpace(s: string)
    requires forall i :: 0 <= i < |s| ==> !IsSpace(s[i])
    ensures SplitOnSpaces(s) == [s]
  {
    PiecesNoSpace(s, false);
    UnescapeIdentity(s);
  }

  // The inverse direction: how a user writes a command line for splitOnSpaces.

  /** Put a backslash in front of every blank of a token. */
  function EscapeSpaces(t: string): (r: string)
    ensures |r| >= |t|
  {
    if t == [] then []
    else (if IsSpace(t[0]) then ['\\', t[0]] else [t[0]]) + EscapeSpaces(t[1..])
  }

  function EscapeAll(ts: seq<string>): (r: seq<string>)
    ensures |r| == |ts|
  {
    if ts == [] then [] else [EscapeSpaces(ts[0])] + EscapeAll(ts[1..])
  }

  lemma {:induction false} EscapeAllAt(ts: seq<string>, k: nat)
    requires k < |ts|
    ensures EscapeAll(ts)[k] == EscapeSpaces(ts[k])
  {
    if k > 0 {
      EscapeAllAt(ts[1..], k - 1);
    }
  }

  predicate EndsWithBackslash(t: string) {
    |t| > 0 && t[|t| - 1] == '\\'
  }

  lemma {:induction false} EscapeSpacesStart(t: string)
    requires t != []
    ensures !IsSpace(EscapeSpaces(t)[0])
  {
  }

  /** Unescape undoes EscapeSpaces. */
  lemma {:induction false} UnescapeEscapeSpaces(t: string)
    ensures Unescape(EscapeSpaces(t)) == t
  {
    if t != [] {
      var e := EscapeSpaces(t[1..]);
      UnescapeEscapeSpaces(t[1..]);
      if IsSpace(t[0]) {
        assert EscapeSpaces(t) == ['\\', t[0]] + e;
        assert (['\\', t[0]] + e)[2..] == e;
      } else {
        assert EscapeSpaces(t) == [t[0]] + e;
        assert ([t[0]] + e)[1..] == e;
        if e != [] {
          EscapeSpacesStart(t[1..]);
        }
      }
    }
  }

  /** One step of the split over a character that is not a split point. */
  lemma PiecesConsKeep(c: char, v: string, flag: bool)
    requires !(IsSpace(c) && !flag)
    ensures Pieces([c] + v, flag) == Glue([c], Pieces(v, c == '\\'))
  {
    assert ([c] + v)[0] == c;
    assert ([c] + v)[1..] == v;
  }

  /** The split state after an escaped token: whether its last character is a backslash. */
  function AfterEscaped(t: string, flag: bool): bool {
    if t == [] then flag else t[|t| - 1] == '\\'
  }

  /** An escaped token contains no split point of its own. */
  lemma {:induction false} PiecesOfEscaped(t: string, u: string, flag: bool)
    ensures Pieces(EscapeSpaces(t) + u, flag) == Glue(EscapeSpaces(t), Pieces(u, AfterEscaped(t, flag)))
    decreases |t|
  {
    var e := EscapeSpaces(t);
    if t == [] {
      assert e + u == u;
      GlueNothing(Pieces(u, flag));
    } else {
      var e' := EscapeSpaces(t[1..]);
      var r := Pieces(u, AfterEscaped(t, flag));
      if IsSpace(t[0]) {
        assert AfterEscaped(t[1..], false) == AfterEscaped(t, flag);
        PiecesOfEscaped(t[1..], u, false);
        assert e == ['\\'] + ([t[0]] + e');
        assert e + u == ['\\'] + ([t[0]] + (e' + u));
        PiecesConsKeep('\\', [t[0]] + (e' + u), flag);
        PiecesConsKeep(t[0], e' + u, true);
        GlueGlue([t[0]], e', r);
        GlueGlue(['\\'], [t[0]] + e', r);
      } else {
        assert AfterEscaped(t[1..], t[0] == '\\') == AfterEscaped(t, flag);
        PiecesOfEscaped(t[1..], u, t[0] == '\\');
        assert e == [t[0]] + e';
        assert e + u == [t[0]] + (e' + u);
        PiecesConsKeep(t[0], e' + u, flag);
        GlueGlue([t[0]], e', r);
      }
    }
  }

  /** Joining escaped tokens with single spaces and splitting gives back the escaped tokens. */
  lemma {:induction false} PiecesOfJoin(ts: seq<string>)
    requires |ts| >= 1
    requires forall k :: 0 <= k < |ts| ==> !EndsWithBackslash(ts[k])
    ensures Pieces(Join(EscapeAll(ts), " "), false) == EscapeAll(ts)
  {
    if |ts| == 1 {
      PiecesOfJoinOne(ts[0]);
      assert EscapeAll(ts) == [EscapeSpaces(ts[0])];
    } else {
      PiecesOfJoin(ts[1..]);
      PiecesOfJoinStep(ts);
    }
  }

  lemma PiecesOfJoinOne(t: string)
    ensures Pieces(Join([EscapeSpaces(t)], " "), false) == [EscapeSpaces(t)]
  {
    PiecesOfEscaped(t, [], false);
    assert EscapeSpaces(t) + [] == EscapeSpaces(t);
    assert Pieces([], false) == [[]];
  }

  lemma PiecesOfJoinStep(ts: seq<string>)
    requires |ts| >= 2 && !EndsWithBackslash(ts[0])
    requires Pieces(Join(EscapeAll(ts[1..]), " "), false) == EscapeAll(ts[1..])
    ensures Pieces(Join(EscapeAll(ts), " "), false) == EscapeAll(ts)
  {
    var e0 := EscapeSpaces(ts[0]);
    var tail := EscapeAll(ts[1..]);
    var j := Join(tail, " ");
    EscapeAllCons(ts);
    JoinCons(e0, tail);
    assert !AfterEscaped(ts[0], false);
    PiecesOfEscaped(ts[0], " " + j, false);
    PiecesConsSplit(' ', j);
    GlueSplit(e0, tail);
  }

  lemma EscapeAllCons(ts: seq<string>)
    requires |ts| >= 1
    ensures EscapeAll(ts) == [EscapeSpaces(ts[0])] + EscapeAll(ts[1..])
  {
  }

  lemma JoinCons(a: string, tail: seq<string>)
    requires |tail| >= 1
    ensures Join([a] + tail, " ") == a + (" " + Join(tail, " "))
  {
    assert ([a] + tail)[0] == a;
    assert ([a] + tail)[1..] == tail;
  }

  lemma GlueSplit(e: string, tail: seq<string>)
    ensures Glue(e, [[]] + tail) == [e] + tail
  {
    var g := Glue(e, [[]] + tail);
    assert g[0] == e + [] == e;
    assert g[1..] == ([[]] + tail)[1..] == tail;
    assert g == [g[0]] + g[1..];
  }

  /** One step of the split over a split point. */
  lemma PiecesConsSplit(c: char, v: string)
    requires IsSpace(c)
    ensures Pieces([c] + v, false) == [[]] + Pieces(v, false)
  {
    assert ([c] + v)[0] == c;
    assert ([c] + v)[1..] == v;
  }

  /**
   * A command line written by escaping the blanks inside each token and joining
   * the tokens with single spaces splits back into exactly those tokens, as long
   * as no token ends in a backslash (which would escape the joining space).
   */
  lemma SplitOnSpacesRoundTrip(ts: seq<string>)
    requires |ts| >= 1
    requires forall k :: 0 <= k < |ts| ==> !EndsWithBackslash(ts[k])
    ensures SplitOnSpaces(Join(EscapeAll(ts), " ")) == ts
  {
    PiecesOfJoin(ts);
    var r := SplitOnSpaces(Join(EscapeAll(ts), " "));
    forall k | 0 <= k < |ts| ensures r[k] == ts[k] {
      EscapeAllAt(ts, k);
      UnescapeEscapeSpaces(ts[k]);
    }
  }

  /** A token written with its blanks escaped splits back into that one token. */
  lemma SplitOnSpacesEscapedToken(t: string)
    ensures SplitOnSpaces(EscapeSpaces(t)) == [t]
  {
    PiecesOfEscaped(t, [], false);
    assert EscapeSpaces(t) + [] == EscapeSpaces(t);
    assert Pieces([], false) == [[]];
    UnescapeEscapeSpaces(t);
  }

  /** EscapeSpaces works character by character, so it distributes over concatenation. */
  lemma {:induction false} EscapeSpacesAppend(x: string, y: string)
    ensures EscapeSpaces(x + y) == EscapeSpaces(x) + EscapeSpaces(y)
  {
    if x != [] {
      assert (x + y)[0] == x[0];
      assert (x + y)[1..] == x[1..] + y;
      EscapeSpacesAppend(x[1..], y);
      var h := if IsSpace(x[0]) then ['\\', x[0]] else [x[0]];
      assert EscapeSpaces(x + y) == h + (EscapeSpaces(x[1..]) + EscapeSpaces(y));
      assert EscapeSpaces(x) == h + EscapeSpaces(x[1..]);
    } else {
      assert x + y == y;
    }
  }

  /**
   * A word ending in a backslash escapes the blank that joins it to the next
   * word: two blank-free words `a` and `b` written as `a\ b` split into the
   * single token `a b`, the backslash dropped. This holds whatever `a` ends
   * with, because the look-behind only looks at the character before the blank.
   */
  lemma SplitOnSpacesTrailingBackslash(a: string, b: string)
    requires forall i :: 0 <= i < |a| ==> !IsSpace(a[i])
    requires forall i :: 0 <= i < |b| ==> !IsSpace(b[i])
    ensures SplitOnSpaces(a + "\\ " + b) == [a + " " + b]
  {
    EscapeSpacesAppend(a + " ", b);
    EscapeSpacesAppend(a, " ");
    EscapeSpacesNoSpace(a);
    EscapeSpacesNoSpace(b);
    assert EscapeSpaces(" ") == "\\ ";
    assert a + "\\ " + b == EscapeSpaces(a + " " + b);
    SplitOnSpacesEscapedToken(a + " " + b);
  }

  lemma {:induction false} EscapeSpacesNoSpace(t: string)
    requires forall i :: 0 <= i < |t| ==> !IsSpace(t[i])
    ensures EscapeSpaces(t) == t
  {
    if t != [] {
      EscapeSpacesNoSpace(t[1..]);
    }
  }

  /** Tokens free of blanks need no escaping. */
  lemma {:induction false} EscapeAllNoSpace(ts: seq<string>)
    requires forall k, i :: 0 <= k < |ts| && 0 <= i < |ts[k]| ==> !IsSpace(ts[k][i])
    ensures EscapeAll(ts) == ts
  {
    if ts != [] {
      EscapeSpacesNoSpace(ts[0]);
      EscapeAllNoSpace(ts[1..]);
    }
  }

  /**
   * A line of blank-free words, none ending in a backslash, separated by single
   * blanks splits into those words.
   */
  lemma SplitOnSpacesPlain(ts: seq<string>)
    requires |ts| >= 1
    requires forall k, i :: 0 <= k < |ts| && 0 <= i < |ts[k]| ==> !IsSpace(ts[k][i])
    requires forall k :: 0 <= k < |ts| ==> !EndsWithBackslash(ts[k])
    ensures SplitOnSpaces(Join(ts, " ")) == ts
  {
    EscapeAllNoSpace(ts);
    SplitOnSpacesRoundTrip(ts);
  }

  lemma PlainLine(line: string)
    requires line == "ssh -o StrictHostKeyChecking=no"
    ensures line == Join(["ssh", "-o", "StrictHostKeyChecking=no"], " ")
  {
    var a := ["ssh", "-o", "StrictHostKeyChecking=no"];
    assert a[1..] == ["-o", "StrictHostKeyChecking=no"];
    assert a[1..][1..] == ["StrictHostKeyChecking=no"];
    assert Join(a[1..], " ") == "-o" + " " + "StrictHostKeyChecking=no";
  }

  /** A command line with ordinary blanks between its words. */
  lemma SplitOnSpacesPlainExample(line: string)
    requires line == "ssh -o StrictHostKeyChecking=no"
    ensures SplitOnSpaces(line) == ["ssh", "-o", "StrictHostKeyChecking=no"]
  {
    var a := ["ssh", "-o", "StrictHostKeyChecking=no"];
    PlainLine(line);
    forall k, i | 0 <= k < |a| && 0 <= i < |a[k]| ensures !IsSpace(a[k][i]) {
    }
    SplitOnSpacesPlain(a);
  }

  lemma EscapedTokens(b: seq<string>)
    requires b == ["ssh foo", "bar"]
    ensures Join(EscapeAll(b), " ") == "ssh\\ foo bar"
  {
    EscapeSpacesNoSpace("foo");
    EscapeSpacesNoSpace("bar");
    assert EscapeSpaces("ssh foo") == "ssh\\ foo";
    assert EscapeAll(b) == ["ssh\\ foo", "bar"];
    assert ["ssh\\ foo", "bar"][1..] == ["bar"];
    assert "ssh\\ foo" + " " + "bar" == "ssh\\ foo bar";
  }

  /** `ssh\ foo bar`: the escaped blank stays inside the first token. */
  lemma SplitOnSpacesEscapedExample(line: string)
    requires line == "ssh\\ foo bar"
    ensures SplitOnSpaces(line) == ["ssh foo", "bar"]
  {
    var b := ["ssh foo", "bar"];
    EscapedTokens(b);
    SplitOnSpacesRoundTrip(b);
  }

  // ---------------------------------------------------------------------------
  // parseDestStr: str.split(/:/)
  // ---------------------------------------------------------------------------

  /** `s.split(sep)` for a one-character separator. */
  function SplitOn(s: string, sep: char): (parts: seq<string>)
    ensures |parts| >= 1
  {
    if s == [] then [[]]
    else
      var rest := SplitOn(s[1..], sep);
      if s[0] == sep then [[]] + rest else [[s[0]] + rest[0]] + rest[1..]
  }

  function Occurrences(s: string, c: char): nat {
    if s == [] then 0 else (if s[0] == c then 1 else 0) + Occurrences(s[1..], c)
  }

  /**
   * The parts of a split, joined again with the separator, give back the input;
   * no part contains the separator; there is one part more than separators.
   */
  lemma {:induction false} SplitOnJoin(s: string, sep: char)
    ensures Join(SplitOn(s, sep), [sep]) == s
    ensures forall k :: 0 <= k < |SplitOn(s, sep)| ==> sep !in SplitOn(s, sep)[k]
    ensures |SplitOn(s, sep)| == Occurrences(s, sep) + 1
  {
    if s != [] {
      var rest := SplitOn(s[1..], sep);
      SplitOnJoin(s[1..], sep);
      if s[0] == sep {
        assert Join([[]] + rest, [sep]) == [] + [sep] + Join(rest, [sep]);
      } else {
        var parts := [[s[0]] + rest[0]] + rest[1..];
        if |rest| == 1 {
          assert Join(parts, [sep]) == [s[0]] + rest[0];
        } else {
          assert Join(rest, [sep]) == rest[0] + [sep] + Join(rest[1..], [sep]);
          assert parts[1..] == rest[1..];
          assert Join(parts, [sep]) == [s[0]] + rest[0] + [sep] + Join(rest[1..], [sep]);
        }
        assert s == [s[0]] + s[1..];
        forall k | 0 <= k < |parts| ensures sep !in parts[k] {
          if k > 0 {
            assert parts[k] == rest[k];
          }
        }
      }
    }
  }

  /** Without a separator, the split is the input alone. */
  lemma {:induction false} SplitOnNoSeparator(s: string, sep: char)
    requires sep !in s
    ensures SplitOn(s, sep) == [s]
  {
    if s != [] {
      assert s[0] in s;
      assert forall x :: x in s[1..] ==> x in s;
      SplitOnNoSeparator(s[1..], sep);
      assert [s[0]] + s[1..] == s;
    }
  }

  /** A split at the first separator: the part before it, then the split of the rest. */
  lemma {:induction false} SplitOnFirst(a: string, sep: char, b: string)
    requires sep !in a
    ensures SplitOn(a + [sep] + b, sep) == [a] + SplitOn(b, sep)
  {
    var s := a + [sep] + b;
    if a == [] {
      assert s == [sep] + b;
      assert s[1..] == b;
    } else {
      assert a[0] in a;
      assert forall x :: x in a[1..] ==> x in a;
      assert s[1..] == a[1..] + [sep] + b;
      SplitOnFirst(a[1..], sep, b);
      assert [a[0]] + a[1..] == a;
    }
  }

  /** Splitting undoes joining, as long as no part holds the separator. */
  lemma {:induction false} SplitOnOfJoin(parts: seq<string>, sep: char)
    requires |parts| >= 1
    requires forall k :: 0 <= k < |parts| ==> sep !in parts[k]
    ensures SplitOn(Join(parts, [sep]), sep) == parts
  {
    if |parts| == 1 {
      SplitOnNoSeparator(parts[0], sep);
    } else {
      SplitOnFirst(parts[0], sep, Join(parts[1..], [sep]));
      SplitOnOfJoin(parts[1..], sep);
      assert [parts[0]] + parts[1..] == parts;
    }
  }

  // ---------------------------------------------------------------------------
  // .replace(/-o\s*passive/g, "")
  // ---------------------------------------------------------------------------

  /** The length of the longest prefix of `s` made of `\s` characters. */
  function LeadingSpaces(s: string): (n: nat)
    ensures n <= |s|
    ensures forall i :: 0 <= i < n ==> IsSpace(s[i])
    ensures n < |s| ==> !IsSpace(s[n])
  {
    if s != [] && IsSpace(s[0]) then 1 + LeadingSpaces(s[1..]) else 0
  }

  /**
   * The length of the match of `-o\s*passive` at the very start of `s`, if any.
   * The greedy `\s*` can only be followed by `p`, so backtracking never helps:
   * the blanks are taken in full.
   */
  function PassiveAt(s: string): (m: Option<nat>)
    ensures m.Some? ==> 9 <= m.value <= |s|
  {
    if |s| >= 2 && s[0] == '-' && s[1] == 'o' then
      var n := 2 + LeadingSpaces(s[2..]);
      if n + 7 <= |s| && s[n..n + 7] == "passive" then Some(n + 7) else None
    else None
  }

  /** `s.replace(/-o\s*passive/g, "")` */
  function StripPassive(s: string): (r: string)
    ensures |r| <= |s|
    decreases |s|
  {
    if s == [] then []
    else match PassiveAt(s)
      case Some(n) => StripPassive(s[n..])
      case None => [s[0]] + StripPassive(s[1..])
  }

  /** A string in which the pattern matches nowhere is left as it is. */
  lemma {:induction false} StripPassiveIdentity(s: string)
    requires forall p :: 0 <= p < |s| ==> PassiveAt(s[p..]).None?
    ensures StripPassive(s) == s
  {
    if s != [] {
      assert s[0..] == s;
      forall p | 0 <= p < |s[1..]| ensures PassiveAt(s[1..][p..]).None? {
        assert s[1..][p..] == s[p + 1..];
      }
      StripPassiveIdentity(s[1..]);
    }
  }

  /** A match is removed whole, blanks included: `-o`, then any `\s` run, then `passive`. */
  lemma StripPassiveRemovesMatch(spaces: string, rest: string)
    requires forall i :: 0 <= i < |spaces| ==> IsSpace(spaces[i])
    ensures StripPassive("-o" + spaces + "passive" + rest) == StripPassive(rest)
  {
    var s := "-o" + spaces + "passive" + rest;
    assert s[2..] == spaces + ("passive" + rest);
    LeadingSpacesPrefix(spaces, "passive" + rest);
    assert s[2 + |spaces|..2 + |spaces| + 7] == "passive";
    assert s[2 + |spaces| + 7..] == rest;
  }

  lemma {:induction false} LeadingSpacesPrefix(spaces: string, rest: string)
    requires forall i :: 0 <= i < |spaces| ==> IsSpace(spaces[i])
    requires rest != [] && !IsSpace(rest[0])
    ensures LeadingSpaces(spaces + rest) == |spaces|
  {
    if spaces != [] {
      assert (spaces + rest)[1..] == spaces[1..] + rest;
      LeadingSpacesPrefix(spaces[1..], rest);
    } else {
      assert spaces + rest == rest;
    }
  }

  /** Where no match starts, the character is kept. */
  lemma StripPassiveKeep(c: char, t: string)
    requires PassiveAt([c] + t).None?
    ensures StripPassive([c] + t) == [c] + StripPassive(t)
  {
    assert ([c] + t)[1..] == t;
  }

  /** A part without `-` cannot start a match: it is kept, and the deletion goes on behind it. */
  lemma {:induction false} StripPassiveNoDash(a: string, b: string)
    requires forall i :: 0 <= i < |a| ==> a[i] != '-'
    ensures StripPassive(a + b) == a + StripPassive(b)
    decreases |a|
  {
    if a == [] {
      assert a + b == b;
    } else {
      assert a + b == [a[0]] + (a[1..] + b);
      StripPassiveKeep(a[0], a[1..] + b);
      StripPassiveNoDash(a[1..], b);
      assert [a[0]] + (a[1..] + StripPassive(b)) == a + StripPassive(b);
    }
  }

  /** Applying the deletion to each element, as `args.map(...)` does. */
  function StripPassiveAll(xs: seq<string>): (r: seq<string>)
    ensures |r| == |xs|
    ensures forall k :: 0 <= k < |xs| ==> r[k] == StripPassive(xs[k])
  {
    seq(|xs|, k requires 0 <= k < |xs| => StripPassive(xs[k]))
  }

  /** An argument list in which the pattern matches nowhere passes through the deletion unchanged. */
  lemma StripPassiveAllIdentity(xs: seq<string>)
    requires forall k, p :: 0 <= k < |xs| && 0 <= p < |xs[k]| ==> PassiveAt(xs[k][p..]).None?
    ensures StripPassiveAll(xs) == xs
  {
    forall k | 0 <= k < |xs| ensures StripPassiveAll(xs)[k] == xs[k] {
      StripPassiveIdentity(xs[k]);
    }
  }
}
