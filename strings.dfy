/** The part of Go's `strings` package the interpreter relies on. Strings are
    sequences of Unicode code points; Go's strings are UTF-8 bytes, so the
    positions used below agree with Go's byte offsets on ASCII text. */
module GoStrings {

  /** unicode.IsSpace: the runes strings.Fields splits on and strings.TrimSpace removes. */
  predicate IsSpace(c: char) {
    c == ' ' || ('\t' <= c <= '\r') || c == '\U{85}' || c == '\U{A0}' || c == '\U{1680}'
    || ('\U{2000}' <= c <= '\U{200A}') || c == '\U{2028}' || c == '\U{2029}'
    || c == '\U{202F}' || c == '\U{205F}' || c == '\U{3000}'
  }

  predicate NoSpace(s: string) {
    forall i | 0 <= i < |s| :: !IsSpace(s[i])
  }

  predicate AllSpace(s: string) {
    forall i | 0 <= i < |s| :: IsSpace(s[i])
  }

  /** A string with no white space at either end, which is what TrimSpace returns. */
  predicate Trimmed(s: string) {
    s == [] || (!IsSpace(s[0]) && !IsSpace(s[|s| - 1]))
  }

  /** strings.TrimLeftFunc(s, unicode.IsSpace) */
  function TrimLeft(s: string): (r: string)
    ensures |r| <= |s| && r == s[|s| - |r|..]
    ensures AllSpace(s[..|s| - |r|])
    ensures r == [] || !IsSpace(r[0])
  {
    if s != [] && IsSpace(s[0]) then
      var r := TrimLeft(s[1..]);
      TrimLeftStep(s, r);
      r
    else s
  }

  lemma TrimLeftStep(s: string, r: string)
    requires s != [] && IsSpace(s[0])
    requires |r| <= |s| - 1 && r == s[1..][|s| - 1 - |r|..] && AllSpace(s[1..][..|s| - 1 - |r|])
    ensures r == s[|s| - |r|..] && AllSpace(s[..|s| - |r|])
  {
    var cut := |s| - |r|;
    assert s[..cut] == [s[0]] + s[1..][..cut - 1];
    AllSpaceCons(s[0], s[1..][..cut - 1]);
  }

  lemma AllSpaceCons(c: char, a: string)
    requires IsSpace(c) && AllSpace(a)
    ensures AllSpace([c] + a)
  {
    var b := [c] + a;
    forall i | 0 <= i < |b| ensures IsSpace(b[i]) {
      if i > 0 {
        assert b[i] == a[i - 1];
      }
    }
  }

  lemma AllSpaceSnoc(a: string, c: char)
    requires AllSpace(a) && IsSpace(c)
    ensures AllSpace(a + [c])
  {
    var b := a + [c];
    forall i | 0 <= i < |b| ensures IsSpace(b[i]) {
      if i < |a| {
        assert b[i] == a[i];
      }
    }
  }

  /** strings.TrimRightFunc(s, unicode.IsSpace) */
  function TrimRight(s: string): (r: string)
    ensures |r| <= |s| && r == s[..|r|]
    ensures AllSpace(s[|r|..])
    ensures r == [] || !IsSpace(r[|r| - 1])
  {
    if s != [] && IsSpace(s[|s| - 1]) then
      var r := TrimRight(s[..|s| - 1]);
      TrimRightStep(s, r);
      r
    else s
  }

  lemma TrimRightStep(s: string, r: string)
    requires s != [] && IsSpace(s[|s| - 1])
    requires |r| <= |s| - 1 && r == s[..|s| - 1][..|r|] && AllSpace(s[..|s| - 1][|r|..])
    ensures r == s[..|r|] && AllSpace(s[|r|..])
  {
    assert s[|r|..] == s[..|s| - 1][|r|..] + [s[|s| - 1]];
    AllSpaceSnoc(s[..|s| - 1][|r|..], s[|s| - 1]);
  }

  /** strings.TrimSpace: the result is s with its leading and trailing white space cut off. */
  function TrimSpace(s: string): (r: string)
    ensures Trimmed(r)
    ensures Trimmed(s) ==> r == s
    ensures |r| <= |s|
    ensures r == [] <==> AllSpace(s)
    ensures exists i :: SpaceAround(s, r, i)
  {
    var l := TrimLeft(s);
    assert l != [] ==> l[0] == s[|s| - |l|];
    assert s[..|s|] == s && l[0..] == l;
    var r := TrimRight(l);
    TrimmedAt(s, l, r, |s| - |l|);
    r
  }

  /** s is r at position i with only white space before and after it. */
  predicate SpaceAround(s: string, r: string, i: int) {
    0 <= i <= |s| - |r| && r == s[i..i + |r|] && AllSpace(s[..i]) && AllSpace(s[i + |r|..])
  }

  /** Slices of a suffix are slices of the whole. */
  lemma SliceOfSuffix<T>(s: seq<T>, i: nat, n: nat)
    requires i + n <= |s|
    ensures s[i..][..n] == s[i..i + n] && s[i..][n..] == s[i + n..]
  {
  }

  /** Trimming white space cannot bring in a rune that was not there. */
  lemma TrimSpaceKeepsAbsence(s: string, c: char)
    requires !Contains(s, [c])
    ensures !Contains(TrimSpace(s), [c])
  {
    var t := TrimSpace(s);
    var l := TrimLeft(s);
    var off := |s| - |l|;
    assert t == l[..|t|] && l == s[off..];
    var r := Index(t, [c]);
    if r >= 0 {
      assert t[r..r + 1][0] == t[r] == c;
      assert t[r] == l[r] == s[off + r];
      OccursAtRune(s, off + r, c);
      assert false;
    }
  }

  lemma OccursAtRune(s: string, i: nat, c: char)
    requires i < |s| && s[i] == c
    ensures OccursAt(s, [c], i)
  {
    assert s[i..i + 1] == [c];
  }

  /** Length of the longest prefix of s that holds no white space. */
  function NonSpaceRun(s: string): (n: nat)
    ensures n <= |s| && NoSpace(s[..n]) && (n == |s| || IsSpace(s[n]))
  {
    if s == [] || IsSpace(s[0]) then 0 else 1 + NonSpaceRun(s[1..])
  }

  /** strings.Fields: the maximal runs of non-space runes, in order. */
  function Fields(s: string): (r: seq<string>)
    ensures forall i | 0 <= i < |r| :: r[i] != [] && NoSpace(r[i])
    ensures r == [] <==> AllSpace(s)
    decreases |s|
  {
    var t := TrimLeft(s);
    if t == [] then []
    else
      var n := NonSpaceRun(t);
      [t[..n]] + Fields(t[n..])
  }

  /** The words ws laid out between the gaps gs: gs[0] ws[0] gs[1] ... ws[n-1] gs[n]. */
  function Interleave(gs: seq<string>, ws: seq<string>): string
    requires |gs| == |ws| + 1
    decreases |ws|
  {
    if ws == [] then gs[0] else gs[0] + ws[0] + Interleave(gs[1..], ws[1..])
  }

  /** s is the words ws with white space around them: any amount at either end
      and at least one rune between two words. */
  predicate SpacedBy(s: string, ws: seq<string>, gs: seq<string>) {
    && |gs| == |ws| + 1 && Interleave(gs, ws) == s
    && (forall i | 0 <= i < |gs| :: AllSpace(gs[i]))
    && (forall i | 0 < i < |ws| :: gs[i] != [])
  }

  /** The fields are maximal: s is exactly its fields with white space between
      them, so no field is ever cut in two. */
  lemma FieldsLayout(s: string)
    ensures exists gs :: SpacedBy(s, Fields(s), gs)
  {
    var gs := FieldsGaps(s);
  }

  /** The gaps of FieldsLayout, built field by field. */
  lemma {:induction false} FieldsGaps(s: string) returns (gs: seq<string>)
    ensures SpacedBy(s, Fields(s), gs)
    decreases |s|
  {
    var t := TrimLeft(s);
    if t == [] {
      gs := [s];
    } else {
      var lead, word, rest := FieldsStep(s);
      var gr := FieldsGaps(rest);
      if Fields(rest) != [] {
        GapBeforeWord(rest, Fields(rest), gr);
      }
      gs := [lead] + gr;
      SpacedByCons(lead, word, rest, Fields(rest), gr);
    }
  }

  /** Text holding a word is leading white space, its first field, and the rest,
      which starts with white space when there is any. */
  lemma FieldsStep(s: string) returns (lead: string, word: string, rest: string)
    requires TrimLeft(s) != []
    ensures s == lead + word + rest && AllSpace(lead)
    ensures Fields(s) == [word] + Fields(rest)
    ensures rest != [] ==> IsSpace(rest[0])
    ensures |rest| < |s|
  {
    var t := TrimLeft(s);
    lead := s[..|s| - |t|];
    var n := NonSpaceRun(t);
    word, rest := t[..n], t[n..];
    SplitAt(s, |s| - |t|);
    SplitAt(t, n);
    Regroup(s, lead, t, word, rest);
  }

  lemma Regroup<T>(s: seq<T>, a: seq<T>, t: seq<T>, b: seq<T>, c: seq<T>)
    requires s == a + t && t == b + c
    ensures s == a + b + c
  {
  }

  /** Text that starts with white space puts a non-empty gap before its first word. */
  lemma GapBeforeWord(rest: string, ws: seq<string>, gs: seq<string>)
    requires SpacedBy(rest, ws, gs) && ws != [] && ws[0] != [] && !IsSpace(ws[0][0])
    requires rest != [] ==> IsSpace(rest[0])
    ensures gs[0] != []
  {
  }

  /** One more word, with its leading gap, in front of a spaced-out text. */
  lemma SpacedByCons(lead: string, word: string, rest: string, ws: seq<string>, gs: seq<string>)
    requires SpacedBy(rest, ws, gs) && AllSpace(lead)
    requires ws != [] ==> gs[0] != []
    ensures SpacedBy(lead + word + rest, [word] + ws, [lead] + gs)
  {
    var gs', ws' := [lead] + gs, [word] + ws;
    assert gs'[1..] == gs && ws'[1..] == ws;
    assert Interleave(gs', ws') == lead + word + rest;
    forall i | 0 < i < |ws'| ensures gs'[i] != [] {
      assert gs'[i] == gs[i - 1];
    }
    forall i | 0 <= i < |gs'| ensures AllSpace(gs'[i]) {
      if i > 0 {
        assert gs'[i] == gs[i - 1];
      }
    }
  }

  /** The first field of a line that is not blank sits after white space only,
      and white space or the end of the line follows it. */
  lemma FirstFieldAt(s: string)
    requires !AllSpace(s)
    ensures var w := Fields(TrimSpace(s));
      w != [] && exists i :: WordAt(s, w[0], i)
  {
    var t := TrimSpace(s);
    var i :| SpaceAround(s, t, i);
    var n := FirstFieldLength(t);
    WordInSpan(s, i, t, n);
  }

  /** Cutting white space off the front of s (leaving l) and then off the back
      (leaving t) keeps s[i..i + |t|], with i the length cut off the front. */
  lemma TrimmedAt(s: string, l: string, t: string, i: nat)
    requires i + |l| == |s| && l == s[i..] && AllSpace(s[..i]) && (l == [] || !IsSpace(l[0]))
    requires |t| <= |l| && t == l[..|t|] && AllSpace(l[|t|..]) && (t == [] || !IsSpace(t[|t| - 1]))
    ensures Trimmed(t) && SpaceAround(s, t, i)
  {
    SliceOfSuffix(s, i, |t|);
    assert t != [] ==> t[0] == l[0];
  }

  /** The first field of a trimmed non-empty text is its leading run. */
  lemma FirstFieldLength(t: string) returns (n: nat)
    requires t != [] && Trimmed(t)
    ensures n <= |t| && Fields(t) != [] && Fields(t)[0] == t[..n]
    ensures n == |t| || IsSpace(t[n])
  {
    n := NonSpaceRun(t);
    FieldsOfWordStart(t);
  }

  /** s holds w at position i with only white space before it, and white space
      or the end of s after it. */
  predicate WordAt(s: string, w: string, i: int) {
    0 <= i <= |s| - |w| && s[i..i + |w|] == w && AllSpace(s[..i])
    && (i + |w| == |s| || IsSpace(s[i + |w|]))
  }

  /** A leading run of a stretch of s, followed in the stretch by white space or by
      the white space after the stretch. */
  lemma WordInSpan(s: string, i: int, t: string, n: nat)
    requires SpaceAround(s, t, i) && n <= |t| && (n == |t| || IsSpace(t[n]))
    ensures WordAt(s, t[..n], i)
  {
    SliceOfSlice(s, i, |t|, n);
    if n < |t| {
      assert s[i + n] == t[n];
    } else if i + n < |s| {
      assert s[i + n] == s[i + |t|..][0];
    }
  }

  lemma SliceOfSlice<T>(s: seq<T>, i: nat, m: nat, n: nat)
    requires i + m <= |s| && n <= m
    ensures s[i..i + m][..n] == s[i..i + n]
  {
  }

  /** The runes of s without its white space. */
  function WithoutSpace(s: string): string {
    if s == [] then [] else (if IsSpace(s[0]) then [] else [s[0]]) + WithoutSpace(s[1..])
  }

  function Concat(parts: seq<string>): string {
    if parts == [] then [] else parts[0] + Concat(parts[1..])
  }

  lemma WithoutSpaceAppend(a: string, b: string)
    ensures WithoutSpace(a + b) == WithoutSpace(a) + WithoutSpace(b)
  {
    if a == [] {
      assert a + b == b;
    } else {
      assert (a + b)[0] == a[0] && (a + b)[1..] == a[1..] + b;
      WithoutSpaceAppend(a[1..], b);
    }
  }

  lemma WithoutSpaceOfSpace(s: string)
    requires AllSpace(s)
    ensures WithoutSpace(s) == []
  {
  }

  lemma WithoutSpaceOfWord(s: string)
    requires NoSpace(s)
    ensures WithoutSpace(s) == s
  {
  }

  lemma ConcatCons(x: string, rest: seq<string>)
    ensures Concat([x] + rest) == x + Concat(rest)
  {
    assert ([x] + rest)[1..] == rest;
  }

  /** A sequence is its first i elements followed by the rest. */
  lemma SplitAt<T>(s: seq<T>, i: nat)
    requires i <= |s|
    ensures s == s[..i] + s[i..]
  {
  }

  /** Fields loses exactly the white space of s: nothing else is dropped or reordered. */
  lemma {:induction false} FieldsKeepsText(s: string)
    ensures Concat(Fields(s)) == WithoutSpace(s)
    decreases |s|
  {
    var t := TrimLeft(s);
    WithoutLeadingSpace(s);
    if t != [] {
      var n := NonSpaceRun(t);
      var word, rest := t[..n], t[n..];
      WithoutSpaceOfRun(t, n);
      FieldsKeepsText(rest);
      assert Fields(s) == [word] + Fields(rest);
      ConcatCons(word, Fields(rest));
    }
  }

  /** Leading white space adds nothing to the runes kept. */
  lemma WithoutLeadingSpace(s: string)
    ensures WithoutSpace(s) == WithoutSpace(TrimLeft(s))
  {
    var t := TrimLeft(s);
    var cut := |s| - |t|;
    SplitAt(s, cut);
    WithoutSpaceAppend(s[..cut], t);
    WithoutSpaceOfSpace(s[..cut]);
  }

  /** A leading run without white space is kept whole. */
  lemma WithoutSpaceOfRun(t: string, n: nat)
    requires n == NonSpaceRun(t)
    ensures WithoutSpace(t) == t[..n] + WithoutSpace(t[n..])
  {
    SplitAt(t, n);
    WithoutSpaceAppend(t[..n], t[n..]);
    WithoutSpaceOfWord(t[..n]);
  }

  lemma NonSpaceRunOfWord(s: string)
    requires NoSpace(s)
    ensures NonSpaceRun(s) == |s|
  {
    if s != [] {
      NonSpaceRunOfWord(s[1..]);
    }
  }

  /** Leading white space does not change the fields. */
  lemma FieldsAfterSpace(s: string)
    requires s != [] && IsSpace(s[0])
    ensures Fields(s) == Fields(s[1..])
  {
    assert TrimLeft(s) == TrimLeft(s[1..]);
  }

  lemma {:induction false} NonSpaceRunOfWordThen(w: string, rest: string)
    requires NoSpace(w) && (rest == [] || IsSpace(rest[0]))
    ensures NonSpaceRun(w + rest) == |w|
    decreases |w|
  {
    if w == [] {
      assert w + rest == rest;
    } else {
      assert (w + rest)[0] == w[0] && (w + rest)[1..] == w[1..] + rest;
      NonSpaceRunOfWordThen(w[1..], rest);
    }
  }

  /** A word followed by white space is the first field. */
  lemma FieldsOfWordThen(w: string, rest: string)
    requires w != [] && NoSpace(w) && rest != [] && IsSpace(rest[0])
    ensures Fields(w + rest) == [w] + Fields(rest)
  {
    var s := w + rest;
    assert s[0] == w[0];
    FieldsOfWordStart(s);
    NonSpaceRunOfWordThen(w, rest);
    assert s[..|w|] == w && s[|w|..] == rest;
  }

  /** A non-empty word without white space is its own only field. */
  lemma FieldsOfWord(s: string)
    requires s != [] && NoSpace(s)
    ensures Fields(s) == [s]
  {
    NonSpaceRunOfWord(s);
    FieldsOfWordStart(s);
    var n := NonSpaceRun(s);
    assert s[..n] == s && s[n..] == [];
    FieldsOfNothing();
  }

  lemma FieldsOfNothing()
    ensures Fields([]) == []
  {
  }

  /** Without leading white space, the first field is the leading run. */
  lemma FieldsOfWordStart(s: string)
    requires s != [] && !IsSpace(s[0])
    ensures Fields(s) == [s[..NonSpaceRun(s)]] + Fields(s[NonSpaceRun(s)..])
  {
    assert TrimLeft(s) == s;
  }

  /** A word and one space in front of the rest: the word is the first field. */
  lemma FieldsOfWordSpace(w: string, rest: string)
    requires w != [] && NoSpace(w)
    ensures Fields(w + " " + rest) == [w] + Fields(rest)
  {
    var tail := " " + rest;
    assert w + " " + rest == w + tail;
    FieldsOfWordThen(w, tail);
    FieldsAfterSpace(tail);
    assert tail[1..] == rest;
  }

  /** Two words with a space between them are two fields. */
  lemma FieldsOfTwo(a: string, b: string)
    requires a != [] && NoSpace(a) && b != [] && NoSpace(b)
    ensures Fields(a + " " + b) == [a, b]
  {
    FieldsOfWord(b);
    FieldsOfWordSpace(a, b);
  }

  /** Three words with a space between each are three fields. */
  lemma FieldsOfThree(a: string, b: string, c: string)
    requires a != [] && NoSpace(a) && b != [] && NoSpace(b) && c != [] && NoSpace(c)
    ensures Fields(a + " " + (b + " " + c)) == [a, b, c]
  {
    FieldsOfTwo(b, c);
    FieldsOfWordSpace(a, b + " " + c);
  }

  function HasPrefix(s: string, prefix: string): bool {
    |prefix| <= |s| && s[..|prefix|] == prefix
  }

  function HasSuffix(s: string, suffix: string): bool {
    |suffix| <= |s| && s[|s| - |suffix|..] == suffix
  }

  /** strings.TrimPrefix */
  function TrimPrefix(s: string, prefix: string): (r: string)
    ensures HasPrefix(s, prefix) ==> prefix + r == s
    ensures !HasPrefix(s, prefix) ==> r == s
  {
    if HasPrefix(s, prefix) then s[|prefix|..] else s
  }

  /** strings.TrimSuffix */
  function TrimSuffix(s: string, suffix: string): (r: string)
    ensures HasSuffix(s, suffix) ==> r + suffix == s
    ensures !HasSuffix(s, suffix) ==> r == s
  {
    if HasSuffix(s, suffix) then s[..|s| - |suffix|] else s
  }

  predicate OccursAt(s: string, sep: string, i: int) {
    0 <= i && i + |sep| <= |s| && s[i..i + |sep|] == sep
  }

  /** The first position at or after `from` where sep occurs in s, or -1. */
  function IndexFrom(s: string, sep: string, from: nat): (r: int)
    ensures r == -1 || (from <= r && OccursAt(s, sep, r))
    ensures forall j | from <= j && (r == -1 || j < r) :: !OccursAt(s, sep, j)
    decreases |s| - from
  {
    if from + |sep| > |s| then -1
    else if s[from..from + |sep|] == sep then from
    else IndexFrom(s, sep, from + 1)
  }

  /** strings.Index */
  function Index(s: string, sep: string): (r: int)
    ensures r == -1 || OccursAt(s, sep, r)
    ensures forall j | 0 <= j && (r == -1 || j < r) :: !OccursAt(s, sep, j)
  {
    IndexFrom(s, sep, 0)
  }

  /** strings.Contains */
  predicate Contains(s: string, sub: string) {
    Index(s, sub) >= 0
  }

  /** No occurrence of sep lies wholly before its first occurrence. */
  lemma BeforeFirstOccurrence(s: string, sep: string)
    requires sep != [] && Index(s, sep) >= 0
    ensures Index(s[..Index(s, sep)], sep) == -1
  {
    var i := Index(s, sep);
    var p := s[..i];
    assert forall j | 0 <= j :: OccursAt(p, sep, j) ==> OccursAt(s, sep, j) && j < i;
  }

  /** strings.Split for a non-empty separator. */
  function Split(s: string, sep: string): (r: seq<string>)
    requires sep != []
    ensures r != []
    ensures forall i | 0 <= i < |r| :: !Contains(r[i], sep)
    decreases |s|
  {
    var i := Index(s, sep);
    if i < 0 then [s]
    else
      BeforeFirstOccurrence(s, sep);
      [s[..i]] + Split(s[i + |sep|..], sep)
  }

  /** None of the pieces holds sep. */
  predicate NoPieceHolds(pieces: seq<string>, sep: string) {
    forall i | 0 <= i < |pieces| :: !Contains(pieces[i], sep)
  }

  /** ps are the pieces of s between the occurrences of sep: joined with sep
      they give s back, and none holds sep. */
  predicate PiecesOf(s: string, sep: string, ps: seq<string>) {
    Join(ps, sep) == s && NoPieceHolds(ps, sep)
  }

  /** s is c, then the first occurrence of sep, then v. */
  predicate CutAt(s: string, sep: string, c: string, v: string) {
    s == c + sep + v && !Contains(c, sep)
  }

  /** strings.SplitN(s, sep, 2): the text before the first sep and the text after it. */
  function SplitOnce(s: string, sep: string): (r: seq<string>)
    requires sep != []
    ensures |r| == 1 <==> !Contains(s, sep)
    ensures |r| == 1 ==> r[0] == s
    ensures |r| == 2 ==> r[0] + sep + r[1] == s && !Contains(r[0], sep)
    ensures |r| == 2 ==> r[0] == s[..Index(s, sep)] && r[1] == s[Index(s, sep) + |sep|..]
    ensures |r| == 1 || |r| == 2
  {
    var i := Index(s, sep);
    if i < 0 then [s]
    else
      BeforeFirstOccurrence(s, sep);
      SplitAround(s, sep, i);
      [s[..i], s[i + |sep|..]]
  }

  /** strings.Join */
  function Join(parts: seq<string>, sep: string): string {
    if parts == [] then []
    else if |parts| == 1 then parts[0]
    else parts[0] + sep + Join(parts[1..], sep)
  }

  /** Split loses nothing: joining its pieces with the separator gives back the input. */
  lemma {:induction false} JoinSplit(s: string, sep: string)
    requires sep != []
    ensures Join(Split(s, sep), sep) == s
    decreases |s|
  {
    var i := Index(s, sep);
    if i >= 0 {
      var rest := s[i + |sep|..];
      JoinSplit(rest, sep);
      assert Split(s, sep) == [s[..i]] + Split(rest, sep);
      SplitAround(s, sep, i);
    }
  }

  /** An occurrence of sep cuts s into the text before it, sep and the text after it. */
  lemma SplitAround(s: string, sep: string, i: int)
    requires OccursAt(s, sep, i)
    ensures s == s[..i] + sep + s[i + |sep|..]
  {
    assert s == s[..i] + s[i..i + |sep|] + s[i + |sep|..];
  }

  /** Number of occurrences of c in s. */
  function CountChar(s: string, c: char): nat {
    if s == [] then 0 else (if s[0] == c then 1 else 0) + CountChar(s[1..], c)
  }

  lemma CountCharAppend(a: string, b: string, c: char)
    ensures CountChar(a + b, c) == CountChar(a, c) + CountChar(b, c)
  {
    if a == [] {
      assert a + b == b;
    } else {
      assert (a + b)[0] == a[0] && (a + b)[1..] == a[1..] + b;
      CountCharAppend(a[1..], b, c);
    }
  }

  lemma CountCharAbsent(s: string, c: char)
    requires forall j | 0 <= j < |s| :: s[j] != c
    ensures CountChar(s, c) == 0
  {
  }

  /** Splitting on a one-rune separator gives one more piece than there are separators. */
  lemma {:induction false} SplitCount(s: string, c: char)
    ensures |Split(s, [c])| == CountChar(s, c) + 1
    decreases |s|
  {
    var i := Index(s, [c]);
    if i < 0 {
      forall j | 0 <= j < |s| ensures s[j] != c {
        assert s[j..j + 1] == [s[j]];
        assert !OccursAt(s, [c], j);
      }
      CountCharAbsent(s, c);
    } else {
      var rest := s[i + 1..];
      forall j | 0 <= j < i ensures s[..i][j] != c {
        assert s[j..j + 1] == [s[j]];
        assert !OccursAt(s, [c], j);
      }
      CountCharAbsent(s[..i], c);
      assert s == s[..i] + [c] + rest;
      CountCharAppend(s[..i] + [c], rest, c);
      CountCharAppend(s[..i], [c], c);
      SplitCount(rest, c);
    }
  }

  /** unicode.ToUpper on the runes whose upper case is an ASCII letter: the ASCII
      lower-case letters, U+0131 (dotless i) and U+017F (long s). Every other rune
      is left as it is; Go maps some of those to other non-ASCII runes, which makes
      no difference to a comparison with an ASCII word. */
  function UpperRune(c: char): char {
    if 'a' <= c <= 'z' then (c as int - 32) as char
    else if c == '\U{131}' then 'I'
    else if c == '\U{17F}' then 'S'
    else c
  }

  /** strings.ToUpper, as far as comparisons with ASCII keywords are concerned. */
  function ToUpper(s: string): (r: string)
    ensures |r| == |s|
  {
    seq(|s|, i requires 0 <= i < |s| => UpperRune(s[i]))
  }

  predicate IsUpperLetter(c: char) {
    'A' <= c <= 'Z'
  }

  /** Rune c is the upper-case letter k in either case, or the dotless i or the
      long s that Go upper-cases to I and S. */
  predicate SameLetter(c: char, k: char) {
    c == k || c as int == k as int + 32 || (k == 'I' && c == '\U{131}') || (k == 'S' && c == '\U{17F}')
  }

  /** w spells the upper-case word k, each letter in either case. */
  predicate SpellsIgnoringCase(w: string, k: string) {
    |w| == |k| && forall i | 0 <= i < |w| :: SameLetter(w[i], k[i])
  }

  /** Upper-casing a word gives an upper-case ASCII keyword exactly when the word
      spells that keyword ignoring case. */
  lemma ToUpperMatchesKeyword(w: string, k: string)
    requires forall i | 0 <= i < |k| :: IsUpperLetter(k[i])
    ensures ToUpper(w) == k <==> SpellsIgnoringCase(w, k)
  {
    var u := ToUpper(w);
    if u == k {
      forall i | 0 <= i < |w| ensures SameLetter(w[i], k[i]) {
        assert UpperRune(w[i]) == k[i];
      }
    }
    if SpellsIgnoringCase(w, k) {
      forall i | 0 <= i < |w| ensures u[i] == k[i] {
        assert SameLetter(w[i], k[i]) && IsUpperLetter(k[i]);
      }
    }
  }
}
