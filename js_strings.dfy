/** The few pieces of ECMAScript string behaviour the route handlers rely on:
    the character classes `\d`, `\s` and `.`, `String.prototype.trim`, and
    `String.prototype.split` with a non-empty string separator.

    A JavaScript string is a sequence of UTF-16 code units; here it is a
    Dafny `string`, a sequence of Unicode scalar values. None of the
    characters the patterns name lies outside the Basic Multilingual Plane,
    so the two readings agree on what matches. */
module JsStrings {

  datatype Option<+T> = None | Some(value: T)

  /** `\d`: the ASCII digits only. */
  predicate IsDigit(c: char) {
    '0' <= c <= '9'
  }

  /** ECMAScript LineTerminator: LF, CR, LINE SEPARATOR and PARAGRAPH SEPARATOR.
      These are the characters `.` does not match. */
  predicate IsLineTerminator(c: char) {
    c == '\n' || c == '\r' || c == '\U{2028}' || c == '\U{2029}'
  }

  /** ECMAScript WhiteSpace or LineTerminator. This one set is both what `\s`
      matches and what `trim` strips: TAB, VT, FF, SPACE, NO-BREAK SPACE, the
      other space separators of category Zs, and ZERO WIDTH NO-BREAK SPACE. */
  predicate IsSpace(c: char) {
    IsLineTerminator(c)
    || c == '\t' || c == '\U{000B}' || c == '\U{000C}' || c == ' '
    || c == '\U{00A0}' || c == '\U{1680}' || ('\U{2000}' <= c <= '\U{200A}')
    || c == '\U{202F}' || c == '\U{205F}' || c == '\U{3000}' || c == '\U{FEFF}'
  }

  /** `s` holds no line terminator, so `.` matches each of its characters. */
  predicate NoLineTerminator(s: string) {
    '\n' !in s && '\r' !in s && '\U{2028}' !in s && '\U{2029}' !in s
  }

  predicate AllSpace(s: string) {
    forall k :: 0 <= k < |s| ==> IsSpace(s[k])
  }

  /** Cuts `s` after its longest prefix whose characters all satisfy `p`:
      what a greedy `p+` or `p*` consumes when nothing after it forces a
      shorter match. */
  function SplitWhile(s: string, p: char -> bool): (r: (string, string))
    ensures r.0 + r.1 == s
    ensures forall k :: 0 <= k < |r.0| ==> p(r.0[k])
    ensures r.1 == [] || !p(r.1[0])
  {
    if s != [] && p(s[0]) then
      var (front, back) := SplitWhile(s[1..], p);
      assert s == [s[0]] + s[1..];
      assert forall k :: 1 <= k < |[s[0]] + front| ==> ([s[0]] + front)[k] == front[k - 1];
      ([s[0]] + front, back)
    else
      ([], s)
  }

  /** The cut point of `SplitWhile` is unique: any split of `s` into a run of
      `p`-characters and a part that does not start with one is that cut. */
  lemma {:induction false} SplitWhileOf(x: string, y: string, p: char -> bool)
    requires forall k :: 0 <= k < |x| ==> p(x[k])
    requires y == [] || !p(y[0])
    ensures SplitWhile(x + y, p) == (x, y)
  {
    if x != [] {
      var s := x + y;
      assert s[0] == x[0];
      assert s[1..] == x[1..] + y;
      SplitWhileOf(x[1..], y, p);
      assert SplitWhile(s, p) == ([s[0]] + SplitWhile(s[1..], p).0, SplitWhile(s[1..], p).1);
      assert x == [x[0]] + x[1..];
    } else {
      assert x + y == y;
    }
  }

  /** The run `SplitWhile` takes is at least as long as any run of
      `p`-characters at the front of `s`. */
  lemma {:induction false} SplitWhileCovers(s: string, n: nat, p: char -> bool)
    requires n <= |s|
    requires forall k :: 0 <= k < n ==> p(s[k])
    ensures |SplitWhile(s, p).0| >= n
  {
    if n > 0 {
      SplitWhileCovers(s[1..], n - 1, p);
    }
  }

  /** Every character of a part of `a + b` is a character of `a + b`. */
  lemma CharsOfParts(a: string, b: string)
    ensures forall c :: c in a ==> c in a + b
    ensures forall c :: c in b ==> c in a + b
  {
    forall c | c in b ensures c in a + b {
      var k :| 0 <= k < |b| && b[k] == c;
      assert (a + b)[|a| + k] == c;
    }
  }

  /** Drops the whitespace at the end of `s`. */
  function TrimEnd(s: string): (r: string)
    ensures r <= s
    ensures forall k :: |r| <= k < |s| ==> IsSpace(s[k])
    ensures r == [] || !IsSpace(r[|r| - 1])
  {
    if s != [] && IsSpace(s[|s| - 1]) then TrimEnd(s[..|s| - 1]) else s
  }

  /** `String.prototype.trim`: `s` without its leading and trailing whitespace. */
  function Trim(s: string): (r: string)
    ensures r == [] || (!IsSpace(r[0]) && !IsSpace(r[|r| - 1]))
    ensures forall c :: c in r ==> c in s
  {
    var cut := SplitWhile(s, IsSpace);
    var r := TrimEnd(cut.1);
    CharsOfParts(r, cut.1[|r|..]);
    assert cut.1 == r + cut.1[|r|..];
    CharsOfParts(cut.0, cut.1);
    r
  }

  /** A string that starts with a non-whitespace character does not trim to
      the empty string. */
  lemma TrimOfNonSpaceStart(s: string)
    requires s != [] && !IsSpace(s[0])
    ensures Trim(s) != []
  {
    SplitWhileOf([], s, IsSpace);
    assert [] + s == s;
  }

  /** What `Trim` removes is whitespace at the two ends and nothing else. */
  lemma TrimIsInfix(s: string)
    ensures exists i :: 0 <= i <= |s| - |Trim(s)| && s[i..i + |Trim(s)|] == Trim(s)
                        && AllSpace(s[..i]) && AllSpace(s[i + |Trim(s)|..])
  {
    var cut := SplitWhile(s, IsSpace);
    var r := TrimEnd(cut.1);
    assert r == Trim(s);
    var trail := cut.1[|r|..];
    assert cut.1 == r + trail;
    forall k | 0 <= k < |trail| ensures IsSpace(trail[k]) {
      assert trail[k] == cut.1[|r| + k];
    }
    assert s == cut.0 + (r + trail);
    InfixBetweenSpaces(s, cut.0, r, trail);
  }

  /** `r` sits between the two whitespace runs of `lead + r + trail`. */
  lemma InfixBetweenSpaces(s: string, lead: string, r: string, trail: string)
    requires s == lead + (r + trail) && AllSpace(lead) && AllSpace(trail)
    ensures exists i :: 0 <= i <= |s| - |r| && s[i..i + |r|] == r
                        && AllSpace(s[..i]) && AllSpace(s[i + |r|..])
  {
    var i := |lead|;
    assert s[..i] == lead;
    assert s[i..i + |r|] == r;
    assert s[i + |r|..] == trail;
  }

  /** A string that neither starts nor ends with whitespace is its own trim. */
  lemma TrimUnchanged(s: string)
    requires s == [] || (!IsSpace(s[0]) && !IsSpace(s[|s| - 1]))
    ensures Trim(s) == s
  {
    SplitWhileOf([], s, IsSpace);
  }

  /** `sep` occurs in `s` at index `i`. */
  predicate OccursAt(s: string, sep: string, i: nat) {
    i + |sep| <= |s| && s[i..i + |sep|] == sep
  }

  predicate Occurs(s: string, sep: string) {
    exists i: nat :: i <= |s| && OccursAt(s, sep, i)
  }

  /** `i` is the index of the first occurrence of `sep` in `s`. */
  predicate IsFirstOccurrence(s: string, sep: string, i: nat) {
    OccursAt(s, sep, i) && forall j: nat :: j < i ==> !OccursAt(s, sep, j)
  }

  /** `String.prototype.indexOf(sep, from)`, with "not found" as `None`. */
  function IndexOf(s: string, sep: string, from: nat): (r: Option<nat>)
    ensures r.Some? ==> from <= r.value && OccursAt(s, sep, r.value)
    ensures r.Some? ==> forall j: nat :: from <= j < r.value ==> !OccursAt(s, sep, j)
    ensures r.None? ==> forall j: nat :: from <= j ==> !OccursAt(s, sep, j)
    decreases |s| - from
  {
    if from + |sep| > |s| then None
    else if s[from..from + |sep|] == sep then Some(from)
    else IndexOf(s, sep, from + 1)
  }

  /** `String.prototype.split(sep)` for a non-empty string `sep`: the pieces
      between successive non-overlapping occurrences, found left to right. */
  function Split(s: string, sep: string): (pieces: seq<string>)
    requires sep != []
    ensures |pieces| >= 1
    ensures Join(pieces, sep) == s
    decreases |s|
  {
    match IndexOf(s, sep, 0)
    case None => [s]
    case Some(i) =>
      var rest := Split(s[i + |sep|..], sep);
      assert ([s[..i]] + rest)[1..] == rest;
      assert s == s[..i] + sep + s[i + |sep|..];
      [s[..i]] + rest
  }

  /** The inverse of `Split`: the pieces glued back with `sep` between them. */
  function Join(pieces: seq<string>, sep: string): string
    requires |pieces| >= 1
    decreases |pieces|
  {
    if |pieces| == 1 then pieces[0] else pieces[0] + sep + Join(pieces[1..], sep)
  }

  /** No piece `Split` yields contains the separator. */
  lemma {:induction false} SplitPiecesFree(s: string, sep: string, k: nat)
    requires sep != [] && k < |Split(s, sep)|
    ensures !Occurs(Split(s, sep)[k], sep)
    decreases |s|
  {
    match IndexOf(s, sep, 0)
    case None =>
      assert Split(s, sep) == [s];
    case Some(i) =>
      var rest := Split(s[i + |sep|..], sep);
      assert Split(s, sep) == [s[..i]] + rest;
      if k == 0 {
        forall j: nat | OccursAt(s[..i], sep, j)
          ensures false
        {
          assert s[..i][j..j + |sep|] == s[j..j + |sep|];
          assert OccursAt(s, sep, j);
        }
      } else {
        SplitPiecesFree(s[i + |sep|..], sep, k - 1);
      }
  }

  /** Without an occurrence of the separator, `split` yields the whole string. */
  lemma SplitWithout(s: string, sep: string)
    requires sep != [] && !Occurs(s, sep)
    ensures Split(s, sep) == [s]
  {
    match IndexOf(s, sep, 0)
    case None =>
    case Some(i) =>
      assert false;
  }

  /** At the first occurrence `i` of the separator, `split` cuts off `s[..i]`
      and goes on with the text after the separator. */
  lemma SplitAtFirst(s: string, sep: string, i: nat)
    requires sep != [] && IsFirstOccurrence(s, sep, i)
    ensures Split(s, sep) == [s[..i]] + Split(s[i + |sep|..], sep)
  {
    match IndexOf(s, sep, 0)
    case None =>
      assert false;
    case Some(j) =>
      assert j == i;
  }

  /** The first piece of `split` runs up to the first occurrence of the
      separator, or to the end when there is none. */
  lemma SplitHead(s: string, sep: string, k: nat)
    requires sep != [] && k <= |s|
    requires forall j: nat :: j < k ==> !OccursAt(s, sep, j)
    requires k == |s| || OccursAt(s, sep, k)
    ensures Split(s, sep)[0] == s[..k]
    ensures |Split(s, sep)| > 1 <==> k < |s|
  {
    if k < |s| {
      SplitAtFirst(s, sep, k);
    } else {
      assert forall j: nat :: j <= |s| ==> !OccursAt(s, sep, j);
      SplitWithout(s, sep);
    }
  }

  /** The second piece of `split` runs from the end of the first occurrence
      of the separator (at `i`) to the next occurrence (at `k`), or to the
      end of the string when there is none. */
  lemma SplitSecond(s: string, sep: string, i: nat, k: nat)
    requires sep != [] && IsFirstOccurrence(s, sep, i)
    requires i + |sep| <= k <= |s|
    requires forall j: nat :: i + |sep| <= j < k ==> !OccursAt(s, sep, j)
    requires k == |s| || OccursAt(s, sep, k)
    ensures |Split(s, sep)| > 1 && Split(s, sep)[1] == s[i + |sep|..k]
  {
    SplitSecondPiece(s, sep, i);
    SplitHeadOfSuffix(s, sep, i + |sep|, k);
  }

  /** At the first occurrence `i` of the separator, the first piece of
      `split` is `s[..i]` and a second piece follows. */
  lemma SplitFirstPiece(s: string, sep: string, i: nat)
    requires sep != [] && IsFirstOccurrence(s, sep, i)
    ensures |Split(s, sep)| > 1 && Split(s, sep)[0] == s[..i]
  {
    SplitAtFirst(s, sep, i);
  }

  /** The second piece of `split` is the first piece of the text after the
      first occurrence of the separator. */
  lemma SplitSecondPiece(s: string, sep: string, i: nat)
    requires sep != [] && IsFirstOccurrence(s, sep, i)
    ensures |Split(s, sep)| > 1 && Split(s, sep)[1] == Split(s[i + |sep|..], sep)[0]
  {
    SplitAtFirst(s, sep, i);
  }

  /** The first piece of `split` on the suffix from `a` runs to the next
      occurrence at or after `a`, or to the end. */
  lemma SplitHeadOfSuffix(s: string, sep: string, a: nat, k: nat)
    requires sep != [] && a <= k <= |s|
    requires forall j: nat :: a <= j < k ==> !OccursAt(s, sep, j)
    requires k == |s| || OccursAt(s, sep, k)
    ensures Split(s[a..], sep)[0] == s[a..k]
  {
    var rest := s[a..];
    NoOccurrenceInSuffix(s, sep, a, k);
    OccursInSuffix(s, sep, a, k - a);
    SplitHead(rest, sep, k - a);
    SliceOfSuffix(s, a, k);
  }

  /** Taking from a suffix is slicing the whole string. */
  lemma SliceOfSuffix(s: string, a: nat, k: nat)
    requires a <= k <= |s|
    ensures s[a..][..k - a] == s[a..k]
  {
  }

  /** Slicing a prefix is slicing the whole string. */
  lemma SliceOfPrefix(s: string, i: nat, a: nat, k: nat)
    requires a <= k <= i <= |s|
    ensures s[..i][a..k] == s[a..k]
  {
  }

  /** A stretch of `s` without an occurrence is the same stretch of a suffix. */
  lemma NoOccurrenceInSuffix(s: string, sep: string, a: nat, k: nat)
    requires a <= k <= |s|
    requires forall j: nat :: a <= j < k ==> !OccursAt(s, sep, j)
    ensures forall j: nat :: j < k - a ==> !OccursAt(s[a..], sep, j)
  {
    forall j: nat | j < k - a ensures !OccursAt(s[a..], sep, j) {
      OccursInSuffix(s, sep, a, j);
    }
  }

  /** Occurrences in a suffix are occurrences in the whole string, shifted. */
  lemma OccursInSuffix(s: string, sep: string, a: nat, j: nat)
    requires a <= |s|
    ensures OccursAt(s[a..], sep, j) <==> OccursAt(s, sep, a + j)
  {
    if a + j + |sep| <= |s| {
      assert s[a..][j..j + |sep|] == s[a + j..a + j + |sep|];
    }
  }

  /** For a one-character separator that no piece contains, `split` undoes
      `Join`. */
  lemma {:induction false} SplitJoin(pieces: seq<string>, sep: string)
    requires |pieces| >= 1 && |sep| == 1
    requires forall k :: 0 <= k < |pieces| ==> sep[0] !in pieces[k]
    ensures Split(Join(pieces, sep), sep) == pieces
    decreases |pieces|
  {
    var s := Join(pieces, sep);
    var n := |pieces[0]|;
    forall j: nat | j < n ensures !OccursAt(s, sep, j) {
      assert s[j] == pieces[0][j];
      assert pieces[0][j] in pieces[0];
    }
    if |pieces| == 1 {
      SplitWithout(s, sep);
    } else {
      var rest := Join(pieces[1..], sep);
      assert s == pieces[0] + sep + rest;
      assert s[n..n + 1] == sep;
      assert IsFirstOccurrence(s, sep, n);
      SplitAtFirst(s, sep, n);
      assert s[..n] == pieces[0];
      assert s[n + 1..] == rest;
      SplitJoin(pieces[1..], sep);
      assert pieces == [pieces[0]] + pieces[1..];
    }
  }
}
