/** The string primitives the screens call: `toLowerCase`/`toUpperCase` (ASCII letters
    only), `trim`, `includes`, `split(' ')`, and the avatar initials built from them. */
module Text {
  import opened Seqs

  /** The characters JavaScript's `String.prototype.trim` removes: WhiteSpace and
      LineTerminator of the ECMAScript grammar. */
  predicate IsJsSpace(c: char) {
    c == '\t' || c == '\n' || c == '\U{000B}' || c == '\U{000C}' || c == '\r' || c == ' '
    || c == '\U{00A0}' || c == '\U{1680}' || ('\U{2000}' <= c <= '\U{200A}')
    || c == '\U{2028}' || c == '\U{2029}' || c == '\U{202F}' || c == '\U{205F}'
    || c == '\U{3000}' || c == '\U{FEFF}'
  }

  predicate IsAsciiUpper(c: char) { 'A' <= c <= 'Z' }
  predicate IsAsciiLower(c: char) { 'a' <= c <= 'z' }

  function LowerChar(c: char): (r: char)
    ensures !IsAsciiUpper(r)
    ensures IsAsciiUpper(c) ==> r as int == c as int + 32
    ensures !IsAsciiUpper(c) ==> r == c
  {
    if IsAsciiUpper(c) then (c as int + 32) as char else c
  }

  function UpperChar(c: char): (r: char)
    ensures !IsAsciiLower(r)
    ensures IsAsciiLower(c) ==> r as int == c as int - 32
    ensures !IsAsciiLower(c) ==> r == c
  {
    if IsAsciiLower(c) then (c as int - 32) as char else c
  }

  /** `s.toLowerCase()` restricted to ASCII letters. */
  function ToLower(s: string): (r: string)
    ensures |r| == |s|
    ensures forall i | 0 <= i < |s| :: r[i] == LowerChar(s[i])
  {
    if s == [] then [] else [LowerChar(s[0])] + ToLower(s[1..])
  }

  /** `s.toUpperCase()` restricted to ASCII letters. */
  function ToUpper(s: string): (r: string)
    ensures |r| == |s|
    ensures forall i | 0 <= i < |s| :: r[i] == UpperChar(s[i])
  {
    if s == [] then [] else [UpperChar(s[0])] + ToUpper(s[1..])
  }

  /** `s` without its leading white space. */
  function TrimStart(s: string): string {
    if s != [] && IsJsSpace(s[0]) then TrimStart(s[1..]) else s
  }

  /** `s` without its trailing white space. */
  function TrimEnd(s: string): string {
    if s != [] && IsJsSpace(s[|s| - 1]) then TrimEnd(s[..|s| - 1]) else s
  }

  lemma {:induction false} TrimStartSpec(s: string)
    ensures var r := TrimStart(s);
            |r| <= |s| && r == s[|s| - |r|..]
            && (forall k | 0 <= k < |s| - |r| :: IsJsSpace(s[k]))
            && (r != [] ==> !IsJsSpace(r[0]))
  {
    if s != [] && IsJsSpace(s[0]) {
      TrimStartSpec(s[1..]);
      var r := TrimStart(s[1..]);
      assert s[1..][|s| - 1 - |r|..] == s[|s| - |r|..];
      assert forall k | 1 <= k < |s| - |r| :: s[k] == s[1..][k - 1];
    }
  }

  lemma {:induction false} TrimEndSpec(s: string)
    ensures var r := TrimEnd(s);
            |r| <= |s| && r == s[..|r|]
            && (forall k | |r| <= k < |s| :: IsJsSpace(s[k]))
            && (r != [] ==> !IsJsSpace(r[|r| - 1]))
  {
    if s != [] && IsJsSpace(s[|s| - 1]) {
      TrimEndSpec(s[..|s| - 1]);
      var r := TrimEnd(s[..|s| - 1]);
      assert s[..|s| - 1][..|r|] == s[..|r|];
      assert forall k | |r| <= k < |s| - 1 :: s[k] == s[..|s| - 1][k];
    }
  }

  /** `r` is the part of `s` that starts at `i`, and everything around it is white space. */
  predicate TrimmedAt(s: string, r: string, i: nat) {
    i + |r| <= |s| && s[i..i + |r|] == r
    && (forall k | 0 <= k < i :: IsJsSpace(s[k]))
    && (forall k | i + |r| <= k < |s| :: IsJsSpace(s[k]))
  }

  /** `s.trim()`: `s` without its leading and trailing white space. */
  function Trim(s: string): string {
    TrimEnd(TrimStart(s))
  }

  /** What `trim` keeps: a contiguous part of the input with only white space around it,
      starting and ending with a non-space, and empty exactly for an all-space input. */
  lemma TrimSpec(s: string)
    ensures exists i: nat :: TrimmedAt(s, Trim(s), i)
    ensures Trim(s) != [] ==> !IsJsSpace(Trim(s)[0]) && !IsJsSpace(Trim(s)[|Trim(s)| - 1])
    ensures Trim(s) == [] <==> forall k | 0 <= k < |s| :: IsJsSpace(s[k])
  {
    var t := TrimStart(s);
    var r := TrimEnd(t);
    TrimStartSpec(s);
    TrimEndSpec(t);
    var i := |s| - |t|;
    assert r == Trim(s);
    assert s[i..i + |r|] == t[..|r|];
    assert forall k | i + |r| <= k < |s| :: s[k] == t[k - i];
    assert TrimmedAt(s, r, i);
  }

  /** `sub` occurs in `s` starting at position `i`. */
  predicate OccursAt(s: string, sub: string, i: nat) {
    i + |sub| <= |s| && s[i..i + |sub|] == sub
  }

  /** `s.includes(sub)`: `sub` is a contiguous part of `s`. */
  function Contains(s: string, sub: string): (r: bool)
    ensures r <==> exists i: nat :: OccursAt(s, sub, i)
    ensures sub == [] ==> r
    decreases |s|
  {
    assert OccursAt(s, sub, 0) <==> |sub| <= |s| && s[..|sub|] == sub;
    if |sub| > |s| then false
    else if s[..|sub|] == sub then true
    else
      var r := Contains(s[1..], sub);
      assert forall i: nat :: OccursAt(s[1..], sub, i) <==> OccursAt(s, sub, i + 1) by {
        forall i: nat ensures OccursAt(s[1..], sub, i) <==> OccursAt(s, sub, i + 1) {
          if i + |sub| <= |s| - 1 {
            assert s[1..][i..i + |sub|] == s[i + 1..i + 1 + |sub|];
          }
        }
      }
      assert (exists i: nat :: OccursAt(s, sub, i)) ==> exists i: nat :: OccursAt(s[1..], sub, i) by {
        if i: nat :| OccursAt(s, sub, i) {
          assert i != 0;
          assert OccursAt(s[1..], sub, i - 1);
        }
      }
      r
  }

  /** `ws.join(' ')`, the inverse of `Split`. */
  function Join(ws: seq<string>): string {
    if |ws| == 0 then ""
    else if |ws| == 1 then ws[0]
    else ws[0] + " " + Join(ws[1..])
  }

  /** `s.split(' ')`: the pieces between single spaces; consecutive spaces give empty
      pieces and the empty string splits into one empty piece. */
  function Split(s: string): (ws: seq<string>)
    ensures |ws| >= 1
    ensures forall w | w in ws :: ' ' !in w
    ensures Join(ws) == s
    decreases |s|
  {
    match FindIndex(s, (c: char) => c == ' ')
    case None =>
      [s]
    case Some(k) =>
      var rest := Split(s[k + 1..]);
      assert ' ' !in s[..k] by {
        forall j | 0 <= j < k ensures s[..k][j] != ' ' { }
      }
      assert s == s[..k] + " " + s[k + 1..];
      assert ([s[..k]] + rest)[1..] == rest;
      [s[..k]] + rest
  }

  /** `ws.map(n => n[0]).join('')`: the first character of every piece; an empty
      piece gives `undefined`, which `join` renders as nothing. */
  function Heads(ws: seq<string>): string {
    if ws == [] then ""
    else (if ws[0] == "" then "" else [ws[0][0]]) + Heads(ws[1..])
  }

  /** Reference definition of the initials: scanning left to right, every non-space
      character that follows a space, or begins the string, starts a word. */
  function WordStarts(s: string, afterSpace: bool): string {
    if s == [] then ""
    else (if afterSpace && s[0] != ' ' then [s[0]] else "") + WordStarts(s[1..], s[0] == ' ')
  }

  lemma {:induction false} WordStartsInsideWord(w: string)
    requires ' ' !in w
    ensures WordStarts(w, false) == ""
  {
    if w != [] {
      WordStartsInsideWord(w[1..]);
    }
  }

  lemma {:induction false} WordStartsOverWord(w: string, rest: string, afterSpace: bool)
    requires ' ' !in w
    ensures WordStarts(w + " " + rest, afterSpace)
         == (if afterSpace && w != "" then [w[0]] else "") + WordStarts(rest, true)
  {
    if w == [] {
      assert w + " " + rest == [' '] + rest;
      assert ([' '] + rest)[1..] == rest;
    } else {
      var t := w + " " + rest;
      assert t[0] == w[0] && t[1..] == w[1..] + " " + rest;
      WordStartsOverWord(w[1..], rest, false);
    }
  }

  /** The split/map/join pipeline picks exactly the word-start characters. */
  lemma {:induction false} HeadsOfSplit(s: string)
    ensures Heads(Split(s)) == WordStarts(s, true)
    decreases |s|
  {
    match FindIndex(s, (c: char) => c == ' ')
    case None =>
      assert ' ' !in s;
      if s != [] {
        WordStartsInsideWord(s[1..]);
      }
    case Some(k) =>
      var w := s[..k];
      assert ' ' !in w by {
        forall j | 0 <= j < k ensures w[j] != ' ' { }
      }
      assert s == w + " " + s[k + 1..];
      assert Split(s) == [w] + Split(s[k + 1..]);
      assert ([w] + Split(s[k + 1..]))[1..] == Split(s[k + 1..]);
      HeadsOfSplit(s[k + 1..]);
      WordStartsOverWord(w, s[k + 1..], true);
  }

  /** The avatar initials: split the name at single spaces, take the first character of
      every piece, upper-case the result and keep at most its first two characters. */
  function GetInitials(name: string): (r: string)
    ensures |r| <= 2
    ensures var starts := ToUpper(WordStarts(name, true));
            r == if |starts| <= 2 then starts else starts[..2]
    ensures forall i | 0 <= i < |r| :: !IsAsciiLower(r[i])
    ensures name == "" ==> r == ""
  {
    HeadsOfSplit(name);
    var joined := ToUpper(Heads(Split(name)));
    if |joined| <= 2 then joined else joined[..2]
  }
}
