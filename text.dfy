/**
 * The JavaScript string and array built-ins the page relies on, over `seq<char>`:
 * `toLowerCase`/`toUpperCase` (ASCII letters only), `split(" ")`, `join(" ")`,
 * the first match of a literal pattern, and `replace(/-/g, " ")`.
 */
module Text {
  import opened Wrappers

  const Space: char := ' '

  predicate IsUpper(c: char) { 'A' <= c <= 'Z' }
  predicate IsLower(c: char) { 'a' <= c <= 'z' }
  predicate IsLetter(c: char) { IsUpper(c) || IsLower(c) }

  // ---------------------------------------------------------------------------
  // Case mapping

  /** `toLowerCase` of one character: upper-case ASCII letters map to lower case, everything else is kept. */
  function LowerChar(c: char): (d: char)
    ensures !IsUpper(d)
    ensures IsLetter(d) == IsLetter(c)
    ensures !IsLetter(c) ==> d == c
    ensures IsLower(c) ==> d == c
    ensures IsUpper(c) ==> d as int - 'a' as int == c as int - 'A' as int
  {
    if IsUpper(c) then (c as int + 32) as char else c
  }

  /** `toUpperCase` of one character: lower-case ASCII letters map to upper case, everything else is kept. */
  function UpperChar(c: char): (d: char)
    ensures !IsLower(d)
    ensures IsLetter(d) == IsLetter(c)
    ensures !IsLetter(c) ==> d == c
    ensures IsUpper(c) ==> d == c
    ensures IsLower(c) ==> d as int - 'A' as int == c as int - 'a' as int
  {
    if IsLower(c) then (c as int - 32) as char else c
  }

  /** Upper-casing forgets an earlier lower-casing of the same character. */
  lemma UpperOfLower(c: char)
    ensures UpperChar(LowerChar(c)) == UpperChar(c)
  {
  }

  /** Lower-casing a whole string, character by character. */
  function ToLower(s: string): (r: string)
    ensures |r| == |s|
    ensures forall i :: 0 <= i < |s| ==> r[i] == LowerChar(s[i])
  {
    if s == [] then [] else [LowerChar(s[0])] + ToLower(s[1..])
  }

  lemma ToLowerNoUpper(s: string)
    requires forall i :: 0 <= i < |s| ==> !IsUpper(s[i])
    ensures ToLower(s) == s
  {
    var r := ToLower(s);
    assert forall i :: 0 <= i < |s| ==> r[i] == s[i];
  }

  // ---------------------------------------------------------------------------
  // split(" ") and join(" ")

  /**
   * `s.split(" ")`: the maximal runs between single spaces, so two adjacent
   * spaces give an empty word and the empty string gives one empty word.
   */
  function Split(s: string): (ws: seq<string>)
    ensures |ws| >= 1
    ensures forall i :: 0 <= i < |ws| ==> Space !in ws[i]
    decreases |s|
  {
    if s == [] then [[]]
    else
      var rest := Split(s[1..]);
      if s[0] == Space then [[]] + rest
      else [[s[0]] + rest[0]] + rest[1..]
  }

  /** Joining words with a single space between neighbours; no words give the empty string. */
  function Join(ws: seq<string>): string
    decreases |ws|
  {
    if |ws| == 0 then []
    else if |ws| == 1 then ws[0]
    else ws[0] + [Space] + Join(ws[1..])
  }

  /** Joining the words of a split gives back the string. */
  lemma {:induction false} JoinSplit(s: string)
    ensures Join(Split(s)) == s
    decreases |s|
  {
    if s != [] {
      var rest := Split(s[1..]);
      JoinSplit(s[1..]);
      if s[0] == Space {
        assert Split(s) == [[]] + rest;
        assert ([[]] + rest)[1..] == rest;
        assert Join(Split(s)) == [] + [Space] + Join(rest);
        assert s == [s[0]] + s[1..];
      } else {
        var ws := Split(s);
        assert ws == [[s[0]] + rest[0]] + rest[1..];
        if |rest| == 1 {
          assert Join(ws) == [s[0]] + rest[0];
          assert s == [s[0]] + s[1..];
        } else {
          assert ws[1..] == rest[1..];
          assert Join(rest) == rest[0] + [Space] + Join(rest[1..]);
          assert Join(ws) == ([s[0]] + rest[0]) + [Space] + Join(rest[1..]);
          assert s == [s[0]] + s[1..];
        }
      }
    }
  }

  /** A word without spaces splits into itself. */
  lemma {:induction false} SplitWord(w: string)
    requires Space !in w
    ensures Split(w) == [w]
    decreases |w|
  {
    if w != [] {
      SplitWord(w[1..]);
      assert w == [w[0]] + w[1..];
    }
  }

  /** Splitting a space-free word followed by a space and a tail. */
  lemma {:induction false} SplitCons(w: string, t: string)
    requires Space !in w
    ensures Split(w + [Space] + t) == [w] + Split(t)
    decreases |w|
  {
    var s := w + [Space] + t;
    if w == [] {
      assert s[1..] == t;
    } else {
      assert s[1..] == w[1..] + [Space] + t;
      SplitCons(w[1..], t);
      assert w == [w[0]] + w[1..];
    }
  }

  /** Splitting the join of space-free words gives back the words. */
  lemma {:induction false} SplitJoin(ws: seq<string>)
    requires |ws| >= 1
    requires forall i :: 0 <= i < |ws| ==> Space !in ws[i]
    ensures Split(Join(ws)) == ws
    decreases |ws|
  {
    if |ws| == 1 {
      SplitWord(ws[0]);
    } else {
      SplitJoin(ws[1..]);
      SplitCons(ws[0], Join(ws[1..]));
      assert ws == [ws[0]] + ws[1..];
    }
  }

  lemma ToLowerCons(c: char, w: string)
    ensures ToLower([c] + w) == [LowerChar(c)] + ToLower(w)
  {
    assert ([c] + w)[1..] == w;
  }

  /** Lower-casing before splitting is lower-casing each word. */
  lemma {:induction false} SplitLower(s: string)
    ensures |Split(ToLower(s))| == |Split(s)|
    ensures forall i :: 0 <= i < |Split(s)| ==> Split(ToLower(s))[i] == ToLower(Split(s)[i])
    decreases |s|
  {
    if s != [] {
      var l := ToLower(s);
      ToLowerCons(s[0], s[1..]);
      assert s == [s[0]] + s[1..];
      assert l[0] == LowerChar(s[0]) && l[1..] == ToLower(s[1..]);
      SplitLower(s[1..]);
      var rest, lrest := Split(s[1..]), Split(ToLower(s[1..]));
      var ws, lws := Split(s), Split(l);
      if s[0] == Space {
        assert ws == [[]] + rest && lws == [[]] + lrest;
        forall i | 0 <= i < |ws| ensures lws[i] == ToLower(ws[i]) {
          if i > 0 { assert ws[i] == rest[i - 1] && lws[i] == lrest[i - 1]; }
        }
      } else {
        assert ws == [[s[0]] + rest[0]] + rest[1..];
        assert lws == [[LowerChar(s[0])] + lrest[0]] + lrest[1..];
        ToLowerCons(s[0], rest[0]);
        forall i | 0 <= i < |ws| ensures lws[i] == ToLower(ws[i]) {
          if i > 0 { assert ws[i] == rest[i] && lws[i] == lrest[i]; }
        }
      }
    }
  }

  /** Every character of a word of a split is a character of the string. */
  lemma {:induction false} SplitChars(s: string, c: char)
    requires c !in s
    ensures forall i :: 0 <= i < |Split(s)| ==> c !in Split(s)[i]
    decreases |s|
  {
    if s != [] {
      assert c !in s[1..] by {
        assert forall k :: 0 <= k < |s[1..]| ==> s[1..][k] == s[k + 1];
      }
      SplitChars(s[1..], c);
    }
  }

  /** Joining adds no character but the space. */
  lemma {:induction false} JoinChars(ws: seq<string>, c: char)
    requires c != Space
    requires forall i :: 0 <= i < |ws| ==> c !in ws[i]
    ensures c !in Join(ws)
    decreases |ws|
  {
    if |ws| > 1 {
      JoinChars(ws[1..], c);
    }
  }

  // ---------------------------------------------------------------------------
  // Literal pattern search and replacement

  /** The pattern `p` occurs in `s` starting at index `i`. */
  predicate OccursAt(s: string, p: string, i: int)
  {
    0 <= i && i + |p| <= |s| && s[i..i + |p|] == p
  }

  lemma OccursShift(s: string, p: string)
    requires s != []
    ensures forall j :: 1 <= j ==> (OccursAt(s, p, j) <==> OccursAt(s[1..], p, j - 1))
  {
    forall j | 1 <= j
      ensures OccursAt(s, p, j) <==> OccursAt(s[1..], p, j - 1)
    {
      if j + |p| <= |s| {
        var x, y := s[j..j + |p|], s[1..][j - 1..j - 1 + |p|];
        assert |x| == |y|;
        assert forall k :: 0 <= k < |x| ==> x[k] == s[j + k] == y[k];
        assert x == y;
      }
    }
  }

  /** The index of the first occurrence of `p` in `s`, as a regular expression made of literal characters finds it. */
  function IndexOf(s: string, p: string): (r: Option<nat>)
    ensures r.Some? ==> OccursAt(s, p, r.value)
    ensures r.Some? ==> forall j :: 0 <= j < r.value ==> !OccursAt(s, p, j)
    ensures r.None? ==> forall j :: !OccursAt(s, p, j)
    decreases |s|
  {
    if |s| < |p| then None
    else if s[..|p|] == p then Some(0)
    else
      OccursShift(s, p);
      match IndexOf(s[1..], p)
      case None => None
      case Some(i) => Some(i + 1)
  }

  /** The pattern occurs somewhere in the string. */
  predicate Contains(s: string, p: string)
  {
    IndexOf(s, p).Some?
  }

  /** Removing a pattern once: its first occurrence is cut out; without one, the string is kept. */
  function RemoveFirst(s: string, p: string): (r: string)
    ensures IndexOf(s, p).None? ==> r == s
    ensures IndexOf(s, p).Some? ==> |r| == |s| - |p|
    ensures IndexOf(s, p).Some? ==>
              var i := IndexOf(s, p).value; i <= |r| && s == r[..i] + p + r[i..]
  {
    match IndexOf(s, p)
    case None => s
    case Some(i) =>
      var r := s[..i] + s[i + |p|..];
      assert r[..i] == s[..i] && r[i..] == s[i + |p|..];
      assert s[i..i + |p|] == p;
      assert s == s[..i] + s[i..i + |p|] + s[i + |p|..];
      r
  }

  /** Replacing every occurrence of the character `a` by the character `b`. */
  function ReplaceAll(s: string, a: char, b: char): (r: string)
    ensures |r| == |s|
    ensures forall i :: 0 <= i < |s| ==> r[i] == if s[i] == a then b else s[i]
  {
    if s == [] then [] else [if s[0] == a then b else s[0]] + ReplaceAll(s[1..], a, b)
  }

  lemma ReplaceAllAbsent(s: string, a: char, b: char)
    requires a !in s
    ensures ReplaceAll(s, a, b) == s
  {
    var r := ReplaceAll(s, a, b);
    assert forall i :: 0 <= i < |s| ==> r[i] == s[i];
  }

  lemma ReplaceAllAppend(s: string, t: string, a: char, b: char)
    ensures ReplaceAll(s + t, a, b) == ReplaceAll(s, a, b) + ReplaceAll(t, a, b)
  {
    var r := ReplaceAll(s + t, a, b);
    var u := ReplaceAll(s, a, b) + ReplaceAll(t, a, b);
    assert forall i :: 0 <= i < |r| ==> r[i] == u[i];
  }

  lemma ReplaceAllRemoves(s: string, a: char, b: char)
    requires a != b
    ensures a !in ReplaceAll(s, a, b)
  {
    var r := ReplaceAll(s, a, b);
    assert forall i :: 0 <= i < |r| ==> r[i] != a;
  }
}
