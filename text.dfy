/** The JavaScript string operations that the text parser relies on, over
    strings as sequences of characters (`string` = `seq<char>`, whose
    characters are Unicode scalar values):
    `String.prototype.trim`, `includes`, `split` with a literal separator,
    and `split(/\r?\n/)`. */
module Text {

  import opened Options

  /** The characters `String.prototype.trim` removes: the ECMAScript
      WhiteSpace code points (tab, vertical tab, form feed, space, no-break
      space, byte order mark and the other space separators) and the
      LineTerminator code points. */
  predicate IsWhitespace(c: char)
  {
    c == '\t' || c == '\n' || c == '\U{000B}' || c == '\U{000C}' || c == '\r' || c == ' '
    || c == '\U{00A0}' || c == '\U{1680}' || ('\U{2000}' <= c <= '\U{200A}')
    || c == '\U{2028}' || c == '\U{2029}' || c == '\U{202F}' || c == '\U{205F}'
    || c == '\U{3000}' || c == '\U{FEFF}'
  }

  /** `s` with its leading whitespace removed. */
  function TrimStart(s: string): (r: string)
    ensures |r| <= |s|
    ensures r != [] ==> !IsWhitespace(r[0])
  {
    if s != [] && IsWhitespace(s[0]) then TrimStart(s[1..]) else s
  }

  /** `TrimStart` keeps a suffix and removes only whitespace. */
  lemma {:induction false} TrimStartSuffix(s: string)
    ensures TrimStart(s) == s[|s| - |TrimStart(s)|..]
    ensures forall k :: 0 <= k < |s| - |TrimStart(s)| ==> IsWhitespace(s[k])
  {
    if s != [] && IsWhitespace(s[0]) {
      TrimStartSuffix(s[1..]);
      forall k | 1 <= k < |s| - |TrimStart(s)| ensures IsWhitespace(s[k]) {
        assert s[k] == s[1..][k - 1];
      }
    }
  }

  /** `s` with its trailing whitespace removed. */
  function TrimEnd(s: string): (r: string)
    ensures |r| <= |s|
    ensures r != [] ==> !IsWhitespace(r[|r| - 1])
  {
    if s != [] && IsWhitespace(s[|s| - 1]) then TrimEnd(s[..|s| - 1]) else s
  }

  /** `TrimEnd` keeps a prefix and removes only whitespace. */
  lemma {:induction false} TrimEndPrefix(s: string)
    ensures TrimEnd(s) == s[..|TrimEnd(s)|]
    ensures forall k :: |TrimEnd(s)| <= k < |s| ==> IsWhitespace(s[k])
  {
    if s != [] && IsWhitespace(s[|s| - 1]) {
      TrimEndPrefix(s[..|s| - 1]);
      forall k | |TrimEnd(s)| <= k < |s| - 1 ensures IsWhitespace(s[k]) {
        assert s[k] == s[..|s| - 1][k];
      }
    }
  }

  /** Whether `s` neither starts nor ends with whitespace. */
  predicate IsTrimmed(s: string)
  {
    s == [] || (!IsWhitespace(s[0]) && !IsWhitespace(s[|s| - 1]))
  }

  /** Whether every character of `s` is one `Trim` removes. */
  predicate AllWhitespace(s: string)
  {
    forall k :: 0 <= k < |s| ==> IsWhitespace(s[k])
  }

  /** `String.prototype.trim`: `s` without its leading and trailing
      whitespace. */
  function Trim(s: string): (r: string)
    ensures |r| <= |s| && IsTrimmed(r)
    ensures r == [] <==> AllWhitespace(s)
  {
    TrimEnds(s);
    TrimEndsEmpty(s);
    TrimEnd(TrimStart(s))
  }

  /** What `Trim` keeps neither starts nor ends with whitespace. */
  lemma TrimEnds(s: string)
    ensures IsTrimmed(TrimEnd(TrimStart(s)))
  {
    var t := TrimStart(s);
    var r := TrimEnd(t);
    if r != [] {
      TrimEndPrefix(t);
      assert r[0] == t[0];
    }
  }

  /** `Trim` removes everything exactly when everything is whitespace. */
  lemma TrimEndsEmpty(s: string)
    ensures TrimEnd(TrimStart(s)) == [] <==> AllWhitespace(s)
  {
    var t := TrimStart(s);
    var d := |s| - |t|;
    var r := TrimEnd(t);
    TrimStartSuffix(s);
    TrimEndPrefix(t);
    if r == [] {
      forall k | 0 <= k < |s| ensures IsWhitespace(s[k]) {
        if k >= d {
          assert s[k] == t[k - d];
        }
      }
    } else {
      assert r[0] == t[0] == s[d];
    }
  }

  /** What `Trim` keeps is an infix of `s`, and what it removes from either
      end is whitespace. */
  lemma TrimInfix(s: string) returns (i: nat)
    ensures i + |Trim(s)| <= |s| && Trim(s) == s[i..i + |Trim(s)|]
    ensures AllWhitespace(s[..i]) && AllWhitespace(s[i + |Trim(s)|..])
  {
    var t := TrimStart(s);
    i := |s| - |t|;
    var r := TrimEnd(t);
    TrimStartSuffix(s);
    TrimEndPrefix(t);
    assert r == t[..|r|];
    assert t == s[i..];
  }

  /** A trimmed string is its own trim; in particular `Trim` is idempotent. */
  lemma TrimOfTrimmed(s: string)
    requires IsTrimmed(s)
    ensures Trim(s) == s
  {
    if s != [] {
      assert TrimStart(s) == s;
      assert TrimEnd(s) == s;
    }
  }

  lemma TrimIdempotent(s: string)
    ensures Trim(Trim(s)) == Trim(s)
  {
    TrimOfTrimmed(Trim(s));
  }

  /** A pattern absent from `s` is absent from its trim; so is a character. */
  lemma NotIncludedInTrim(s: string, pat: string)
    requires !Includes(s, pat)
    ensures !Includes(Trim(s), pat)
  {
    var i := TrimInfix(s);
    NotIncludedInInfix(s, pat, i, i + |Trim(s)|);
  }

  lemma CharNotInTrim(s: string, c: char)
    requires c !in s
    ensures c !in Trim(s)
  {
    var i := TrimInfix(s);
    assert forall k :: 0 <= k < |Trim(s)| ==> Trim(s)[k] == s[i + k];
  }

  /** A pattern that does not occur in `s` does not occur in an infix of `s`. */
  lemma NotIncludedInInfix(s: string, pat: string, i: nat, j: nat)
    requires i <= j <= |s|
    requires !Includes(s, pat)
    ensures !Includes(s[i..j], pat)
  {
    var t := s[i..j];
    forall k: nat | k + |pat| <= |t| ensures !OccursAt(t, pat, k) {
      var w, v := t[k..k + |pat|], s[i + k..i + k + |pat|];
      assert |w| == |v|;
      forall m | 0 <= m < |w| ensures w[m] == v[m] {
        assert w[m] == t[k + m] == s[i + k + m];
      }
      assert w == v;
      assert !OccursAt(s, pat, i + k);
    }
  }

  /** Where `x` sits in `s` at `i` and does not include `pat`, `pat` starts
      at no position of `s` from which it would fit inside `x`. */
  lemma NoOccurrenceFromInfix(s: string, pat: string, i: nat, x: string)
    requires i + |x| <= |s| && s[i..i + |x|] == x && !Includes(x, pat)
    ensures forall k :: i <= k && k + |pat| <= i + |x| ==> !OccursAt(s, pat, k)
  {
    forall k | i <= k && k + |pat| <= i + |x| ensures !OccursAt(s, pat, k) {
      var j := k - i;
      assert !OccursAt(x, pat, j);
      var w, v := x[j..j + |pat|], s[k..k + |pat|];
      forall m | 0 <= m < |w| ensures w[m] == v[m] {
        assert w[m] == x[j + m] == s[i + j + m];
      }
      assert w == v;
    }
  }

  /** Whether `pat` occurs in `s` at position `i`. */
  predicate OccursAt(s: string, pat: string, i: nat)
  {
    i + |pat| <= |s| && s[i..i + |pat|] == pat
  }

  /** `s.indexOf(pat, from)`: the first position at or after `from` where
      `pat` occurs, if any. */
  function IndexOf(s: string, pat: string, from: nat): (r: Option<nat>)
    decreases |s| - from
    ensures r.Some? ==> from <= r.value && OccursAt(s, pat, r.value)
    ensures r.Some? ==> forall k :: from <= k < r.value ==> !OccursAt(s, pat, k)
    ensures r.None? ==> forall k :: from <= k ==> !OccursAt(s, pat, k)
  {
    if from + |pat| > |s| then None
    else if s[from..from + |pat|] == pat then Some(from)
    else IndexOf(s, pat, from + 1)
  }

  /** `s.includes(pat)`. */
  predicate Includes(s: string, pat: string)
  {
    IndexOf(s, pat, 0).Some?
  }

  /** `pat` starts at no position from `lo` up to (not including) `hi`. */
  predicate NoOccurrence(s: string, pat: string, lo: nat, hi: nat)
  {
    forall k :: lo <= k < hi ==> !OccursAt(s, pat, k)
  }

  /** A field ends at `e`: at the end of the text or where `pat` starts. */
  predicate FieldEnd(s: string, pat: string, e: nat)
  {
    e == |s| || OccursAt(s, pat, e)
  }

  /** The first field of `s.split(sep)`: everything before the first
      occurrence of `sep`, or all of `s` when there is none. */
  function FirstField(s: string, sep: string): (r: string)
    requires sep != []
    ensures r <= s
    ensures NoOccurrence(s, sep, 0, |r|)
    ensures FieldEnd(s, sep, |r|)
  {
    match IndexOf(s, sep, 0)
    case Some(i) => s[..i]
    case None => s
  }

  /** `p` are the first two fields of `s` split on `sep`: `s` starts with
      `p.0`, then `sep`, then `p.1`; `sep` starts nowhere inside either
      field, and the second field ends at the end of `s` or where `sep`
      starts again. */
  predicate AreFirstTwoFields(s: string, sep: string, p: (string, string))
  {
    && p.0 + sep + p.1 <= s
    && NoOccurrence(s, sep, 0, |p.0|)
    && NoOccurrence(s, sep, |p.0| + |sep|, |p.0| + |sep| + |p.1|)
    && FieldEnd(s, sep, |p.0| + |sep| + |p.1|)
  }

  /** `[a, b] = s.split(sep)` when `s` includes `sep` (`sep` non-empty): `a`
      is the text before the first occurrence, `b` the text after it up to
      the next occurrence (or up to the end); later fields are dropped. */
  function FirstTwoFields(s: string, sep: string): (r: (string, string))
    requires sep != [] && Includes(s, sep)
    ensures AreFirstTwoFields(s, sep, r)
    ensures !Includes(r.0, sep) && !Includes(r.1, sep)
  {
    var i := IndexOf(s, sep, 0).value;
    var p := (s[..i], FirstField(s[i + |sep|..], sep));
    TwoFieldsSit(s, sep, p, i + |sep|);
    p
  }

  /** What `IndexOf` and `FirstField` say about the two pieces, said about
      the whole text. */
  lemma TwoFieldsSit(s: string, sep: string, p: (string, string), j: nat)
    requires sep != [] && p.0 <= s && OccursAt(s, sep, |p.0|) && j == |p.0| + |sep|
    requires NoOccurrence(s, sep, 0, |p.0|)
    requires p.1 <= s[j..]
    requires NoOccurrence(s[j..], sep, 0, |p.1|)
    requires FieldEnd(s[j..], sep, |p.1|)
    ensures AreFirstTwoFields(s, sep, p)
    ensures !Includes(p.0, sep) && !Includes(p.1, sep)
  {
    FieldsArePrefix(s, sep, p.0, p.1);
    assert p.0 == s[..|p.0|];
    ShiftedField(s, sep, j, p.1);
    NoOccurrenceInPrefix(s, sep, |p.0|);
    NoOccurrenceInPrefix'(s[j..], sep, p.1);
  }

  lemma FieldsArePrefix(s: string, sep: string, x: string, y: string)
    requires x <= s && OccursAt(s, sep, |x|) && y <= s[|x| + |sep|..]
    ensures x + sep + y <= s
  {
    assert x + sep == s[..|x| + |sep|];
    assert x + sep + y == s[..|x| + |sep| + |y|];
  }

  /** What `FirstField` says about the text after position `j`, said about
      the whole text. */
  lemma ShiftedField(s: string, sep: string, j: nat, f: string)
    requires sep != [] && j <= |s| && f <= s[j..]
    requires NoOccurrence(s[j..], sep, 0, |f|)
    requires FieldEnd(s[j..], sep, |f|)
    ensures NoOccurrence(s, sep, j, j + |f|)
    ensures FieldEnd(s, sep, j + |f|)
  {
    forall k | j <= k < j + |f| ensures !OccursAt(s, sep, k) {
      assert !OccursAt(s[j..], sep, k - j);
      if k + |sep| <= |s| {
        assert s[j..][k - j..k - j + |sep|] == s[k..k + |sep|];
      }
    }
    if |f| != |s| - j {
      assert s[j..][|f|..|f| + |sep|] == s[j + |f|..j + |f| + |sep|];
    }
  }

  /** The first two fields are the only pair of fields that sit in `s` as
      `AreFirstTwoFields` describes. */
  lemma FirstTwoFieldsUnique(s: string, sep: string, q: (string, string))
    requires sep != [] && AreFirstTwoFields(s, sep, q)
    ensures Includes(s, sep) && FirstTwoFields(s, sep) == q
  {
    OccursAfterPrefix(s, sep, q.0, q.1);
    OccurrenceIncluded(s, sep, |q.0|);
    var r := FirstTwoFields(s, sep);
    SameFields(s, sep, r, q);
  }

  lemma OccurrenceIncluded(s: string, pat: string, i: nat)
    requires OccursAt(s, pat, i)
    ensures Includes(s, pat)
  {
    assert !IndexOf(s, pat, 0).None?;
  }

  lemma SameFields(s: string, sep: string, p: (string, string), q: (string, string))
    requires AreFirstTwoFields(s, sep, p) && AreFirstTwoFields(s, sep, q)
    ensures p == q
  {
    OccursAfterPrefix(s, sep, p.0, p.1);
    OccursAfterPrefix(s, sep, q.0, q.1);
    FieldsSit(s, sep, p.0, p.1);
    FieldsSit(s, sep, q.0, q.1);
    FieldIs(s, sep, 0, p.0, q.0);
    FieldIs(s, sep, |p.0| + |sep|, p.1, q.1);
  }

  /** The fields are determined by where `sep` occurs: in `a + sep + b + t`
      where `sep` starts nowhere inside `a` or `b` and `t` is empty or starts
      with `sep`, the first two fields are `a` and `b`. */
  lemma FirstTwoFieldsOf(s: string, sep: string, a: string, b: string, t: string)
    requires sep != [] && s == a + sep + b + t
    requires NoOccurrence(s, sep, 0, |a|)
    requires NoOccurrence(s, sep, |a| + |sep|, |a| + |sep| + |b|)
    requires t == [] || sep <= t
    ensures Includes(s, sep) && FirstTwoFields(s, sep) == (a, b)
  {
    ConcatLayout(s, sep, a, b, t);
    FirstTwoFieldsUnique(s, sep, (a, b));
  }

  /** Where the pieces of `a + sep + b + t` sit in the text. */
  lemma ConcatLayout(s: string, sep: string, a: string, b: string, t: string)
    requires s == a + sep + b + t && (t == [] || sep <= t)
    ensures a + sep + b <= s
    ensures FieldEnd(s, sep, |a| + |sep| + |b|)
  {
    var u := a + sep + b;
    assert s[..|u|] == u && s[|u|..] == t;
    if t != [] {
      assert s[|u|..|u| + |sep|] == t[..|sep|];
    }
  }

  lemma FieldsSit(s: string, sep: string, x: string, y: string)
    requires x + sep + y <= s
    ensures s[..|x|] == x && s[|x| + |sep|..|x| + |sep| + |y|] == y
  {
    assert s[..|x| + |sep| + |y|] == x + sep + y;
  }

  /** A field is determined by where it starts: it runs up to the next
      occurrence of `sep` or to the end of the text. */
  lemma FieldIs(s: string, sep: string, start: nat, f: string, g: string)
    requires start + |f| <= |s| && s[start..start + |f|] == f
    requires start + |g| <= |s| && s[start..start + |g|] == g
    requires NoOccurrence(s, sep, start, start + |f|)
    requires NoOccurrence(s, sep, start, start + |g|)
    requires FieldEnd(s, sep, start + |f|)
    requires FieldEnd(s, sep, start + |g|)
    ensures f == g
  {
  }

  /** `sep` occurs where it follows `x` in `x + sep + y`. */
  lemma OccursAfterPrefix(s: string, sep: string, x: string, y: string)
    requires x + sep + y <= s
    ensures OccursAt(s, sep, |x|)
  {
    assert s[|x|..|x| + |sep|] == (x + sep + y)[|x|..|x| + |sep|];
  }

  lemma NoOccurrenceInPrefix(s: string, sep: string, i: nat)
    requires sep != [] && i <= |s|
    requires forall k :: 0 <= k < i ==> !OccursAt(s, sep, k)
    ensures !Includes(s[..i], sep)
  {
    NoOccurrenceInPrefix'(s, sep, s[..i]);
  }

  lemma NoOccurrenceInPrefix'(s: string, sep: string, p: string)
    requires p <= s
    requires forall k :: 0 <= k && k + |sep| <= |p| ==> !OccursAt(s, sep, k)
    ensures !Includes(p, sep)
  {
    forall k: nat | k + |sep| <= |p| ensures !OccursAt(p, sep, k) {
      assert p == s[..|p|];
      assert p[k..k + |sep|] == s[k..k + |sep|];
      assert !OccursAt(s, sep, k);
    }
  }

  /** `s.split(c)` for a single character: the pieces between occurrences
      of `c`; there is always at least one piece. */
  function SplitOn(s: string, c: char): (r: seq<string>)
    ensures |r| >= 1
    ensures forall piece :: piece in r ==> c !in piece
  {
    match IndexOf(s, [c], 0)
    case None =>
      assert forall k :: 0 <= k < |s| ==> s[k] != c by {
        forall k | 0 <= k < |s| ensures s[k] != c {
          assert !OccursAt(s, [c], k);
          assert s[k..k + 1] == [s[k]];
        }
      }
      [s]
    case Some(i) =>
      assert forall k :: 0 <= k < i ==> s[k] != c by {
        forall k | 0 <= k < i ensures s[k] != c {
          assert !OccursAt(s, [c], k);
          assert s[k..k + 1] == [s[k]];
        }
      }
      [s[..i]] + SplitOn(s[i + 1..], c)
  }

  /** The pieces joined back together with `c` between them. */
  function JoinWith(pieces: seq<string>, c: char): string
  {
    if pieces == [] then []
    else if |pieces| == 1 then pieces[0]
    else pieces[0] + [c] + JoinWith(pieces[1..], c)
  }

  /** Splitting on `c` and joining with `c` gives back the string. */
  lemma {:induction false} JoinSplit(s: string, c: char)
    ensures JoinWith(SplitOn(s, c), c) == s
    decreases |s|
  {
    match IndexOf(s, [c], 0)
    case None =>
    case Some(i) =>
      assert s[i] == c by {
        assert s[i..i + 1] == [c];
      }
      JoinSplit(s[i + 1..], c);
      assert s == s[..i] + [c] + s[i + 1..];
  }

  /** Joining pieces that do not contain `c` and splitting on `c` gives back
      the pieces. */
  lemma {:induction false} SplitJoin(pieces: seq<string>, c: char)
    requires pieces != []
    requires forall piece :: piece in pieces ==> c !in piece
    ensures SplitOn(JoinWith(pieces, c), c) == pieces
  {
    var s := JoinWith(pieces, c);
    var p := pieces[0];
    NotInHasNoOccurrence(p, c);
    if |pieces| == 1 {
      assert IndexOf(s, [c], 0).None?;
    } else {
      var rest := JoinWith(pieces[1..], c);
      assert s == p + [c] + rest;
      assert OccursAt(s, [c], |p|);
      forall k | 0 <= k < |p| ensures !OccursAt(s, [c], k) {
        assert s[k] == p[k];
        assert s[k..k + 1] == [s[k]];
      }
      assert IndexOf(s, [c], 0) == Some(|p|);
      assert s[..|p|] == p;
      assert s[|p| + 1..] == rest;
      SplitJoin(pieces[1..], c);
    }
  }

  lemma NotInHasNoOccurrence(p: string, c: char)
    requires c !in p
    ensures IndexOf(p, [c], 0).None?
  {
    forall k: nat | k + 1 <= |p| ensures !OccursAt(p, [c], k) {
      assert p[k..k + 1] == [p[k]];
    }
  }

  /** In `a + [c] + b` with `c` in neither `a` nor `b`, the first two fields
      of the split on `c` are `a` and `b`. */
  lemma FirstTwoFieldsOfJoined(a: string, c: char, b: string)
    requires c !in a && c !in b
    ensures Includes(a + [c] + b, [c])
    ensures FirstTwoFields(a + [c] + b, [c]) == (a, b)
  {
    var s := a + [c] + b;
    assert OccursAt(s, [c], |a|) by { assert s[|a|..|a| + 1] == [c]; }
    forall k: nat | k < |a| ensures !OccursAt(s, [c], k) {
      assert s[k..k + 1] == [a[k]];
    }
    assert IndexOf(s, [c], 0) == Some(|a|);
    assert s[..|a|] == a;
    assert s[|a| + 1..] == b;
    NotInHasNoOccurrence(b, c);
  }

  /** The piece with one trailing carriage return removed, as the `\r?` of
      the line-break pattern `/\r?\n/` consumes it. */
  function DropCarriageReturn(piece: string): (r: string)
    ensures piece != [] && piece[|piece| - 1] == '\r' ==> piece == r + ['\r']
    ensures piece == [] || piece[|piece| - 1] != '\r' ==> r == piece
  {
    if piece != [] && piece[|piece| - 1] == '\r' then piece[..|piece| - 1] else piece
  }

  /** `text.split(/\r?\n/)`: the pieces between line breaks, where a line
      break is "\n" or "\r\n". The last piece is not followed by a line
      break, so a carriage return at its end stays. */
  function Lines(text: string): (r: seq<string>)
    ensures |r| >= 1
    ensures forall line :: line in r ==> '\n' !in line
  {
    var pieces := SplitOn(text, '\n');
    assert forall k :: 0 <= k < |pieces| ==> '\n' !in DropCarriageReturn(pieces[k]) by {
      forall k | 0 <= k < |pieces| ensures '\n' !in DropCarriageReturn(pieces[k]) {
        assert pieces[k] in pieces;
        var d := DropCarriageReturn(pieces[k]);
        if d != pieces[k] {
          assert forall j :: 0 <= j < |d| ==> d[j] == pieces[k][j];
        }
      }
    }
    seq(|pieces|, k requires 0 <= k < |pieces| =>
      if k < |pieces| - 1 then DropCarriageReturn(pieces[k]) else pieces[k])
  }

  /** Lines that contain no line break and (except the last) do not end in a
      carriage return come back unchanged from joining them with "\n" and
      splitting them again. */
  lemma LinesOfJoined(lines: seq<string>)
    requires lines != []
    requires forall line :: line in lines ==> '\n' !in line
    requires forall k :: 0 <= k < |lines| - 1 ==> lines[k] == [] || lines[k][|lines[k]| - 1] != '\r'
    ensures Lines(JoinWith(lines, '\n')) == lines
  {
    var lf := seq(|lines| - 1, _ => false);
    BreaksAsJoin(lines, lf);
    assert WithBreaks(lines, lf) == lines;
    LinesOfBreaksJoined(lines, lf);
  }

  /** Lines joined by line breaks, as a file holds them: line `k` is
      followed by "\r\n" when `crlf[k]` holds and by "\n" otherwise, so a
      file may mix the two. */
  function JoinBreaks(lines: seq<string>, crlf: seq<bool>): string
    requires |crlf| + 1 == |lines|
  {
    if |lines| == 1 then lines[0]
    else lines[0] + (if crlf[0] then "\r\n" else "\n") + JoinBreaks(lines[1..], crlf[1..])
  }

  /** Lines joined by "\r\n", the line break of a file saved on Windows. */
  function JoinCrLf(lines: seq<string>): string
  {
    if lines == [] then [] else JoinBreaks(lines, seq(|lines| - 1, _ => true))
  }

  /** The lines with a carriage return after every line followed by
      "\r\n". */
  function WithBreaks(lines: seq<string>, crlf: seq<bool>): (r: seq<string>)
    requires |crlf| + 1 == |lines|
    ensures |r| == |lines|
  {
    seq(|lines|, k requires 0 <= k < |lines| =>
      if k < |crlf| && crlf[k] then lines[k] + "\r" else lines[k])
  }

  /** Joining with mixed breaks is joining with "\n" after adding the
      carriage returns of the "\r\n" breaks. */
  lemma {:induction false} BreaksAsJoin(lines: seq<string>, crlf: seq<bool>)
    requires |crlf| + 1 == |lines|
    ensures JoinBreaks(lines, crlf) == JoinWith(WithBreaks(lines, crlf), '\n')
  {
    if |lines| > 1 {
      BreaksAsJoin(lines[1..], crlf[1..]);
      var w := WithBreaks(lines, crlf);
      assert w[1..] == WithBreaks(lines[1..], crlf[1..]);
      assert w[0] + "\n" == lines[0] + (if crlf[0] then "\r\n" else "\n");
    }
  }

  /** Lines without line feeds, joined by any mix of "\n" and "\r\n", split
      back into the same lines: the carriage return of each "\r\n" is
      consumed. A line followed by a bare "\n" must not end in a carriage
      return, which the split would take for part of the break. */
  lemma LinesOfBreaksJoined(lines: seq<string>, crlf: seq<bool>)
    requires |crlf| + 1 == |lines|
    requires forall line :: line in lines ==> '\n' !in line
    requires forall k :: 0 <= k < |crlf| && !crlf[k] ==> lines[k] == [] || lines[k][|lines[k]| - 1] != '\r'
    ensures Lines(JoinBreaks(lines, crlf)) == lines
  {
    BreakPieces(lines, crlf);
    LinesOfPieces(JoinBreaks(lines, crlf), lines, crlf);
  }

  /** Lines without line feeds, joined by "\r\n", split back into the
      same lines. */
  lemma LinesOfCrLfJoined(lines: seq<string>)
    requires lines != []
    requires forall line :: line in lines ==> '\n' !in line
    ensures Lines(JoinCrLf(lines)) == lines
  {
    LinesOfBreaksJoined(lines, seq(|lines| - 1, _ => true));
  }

  /** Splitting the joined lines on "\n" leaves the carriage returns of the
      "\r\n" breaks on the pieces. */
  lemma BreakPieces(lines: seq<string>, crlf: seq<bool>)
    requires |crlf| + 1 == |lines|
    requires forall line :: line in lines ==> '\n' !in line
    ensures SplitOn(JoinBreaks(lines, crlf), '\n') == WithBreaks(lines, crlf)
  {
    var w := WithBreaks(lines, crlf);
    forall piece | piece in w ensures '\n' !in piece {
      var k :| 0 <= k < |w| && w[k] == piece;
      assert lines[k] in lines;
    }
    BreaksAsJoin(lines, crlf);
    SplitJoin(w, '\n');
  }

  lemma LinesOfPieces(text: string, lines: seq<string>, crlf: seq<bool>)
    requires |crlf| + 1 == |lines|
    requires forall k :: 0 <= k < |crlf| && !crlf[k] ==> lines[k] == [] || lines[k][|lines[k]| - 1] != '\r'
    requires SplitOn(text, '\n') == WithBreaks(lines, crlf)
    ensures Lines(text) == lines
  {
    var w := WithBreaks(lines, crlf);
    var r := Lines(text);
    forall k | 0 <= k < |lines| ensures r[k] == lines[k] {
      if k < |crlf| && crlf[k] {
        assert w[k] == lines[k] + ['\r'];
      }
    }
  }
}
