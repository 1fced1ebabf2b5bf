/** The handful of JavaScript string operations the core relies on, with their ECMAScript meaning. */
module Text {
  import opened Wrappers

  /** The characters `.` in a regular expression refuses to match. */
  predicate IsLineTerminator(c: char) {
    c == '\n' || c == '\r' || c == '\U{2028}' || c == '\U{2029}'
  }

  /** The characters `String.prototype.trim` removes: white space and line terminators. */
  predicate IsJsWhitespace(c: char) {
    || c == '\t' || c == '\U{000B}' || c == '\U{000C}' || c == ' ' || c == '\U{00A0}' || c == '\U{FEFF}'
    || c == '\U{1680}' || ('\U{2000}' <= c <= '\U{200A}') || c == '\U{202F}' || c == '\U{205F}'
    || c == '\U{3000}' || IsLineTerminator(c)
  }

  predicate NoLineTerminator(s: string) {
    forall i :: 0 <= i < |s| ==> !IsLineTerminator(s[i])
  }

  /** `s.startsWith(prefix)` */
  predicate StartsWith(s: string, prefix: string) {
    |prefix| <= |s| && s[..|prefix|] == prefix
  }

  predicate OccursAt(s: string, pat: string, i: nat) {
    i + |pat| <= |s| && s[i..i + |pat|] == pat
  }

  function IndexFrom(s: string, pat: string, i: nat): (r: Option<nat>)
    requires i <= |s|
    ensures r.Some? ==> i <= r.value && OccursAt(s, pat, r.value)
    ensures r.Some? ==> forall j :: i <= j < r.value ==> !OccursAt(s, pat, j)
    ensures r.None? ==> forall j :: i <= j <= |s| ==> !OccursAt(s, pat, j)
    decreases |s| - i
  {
    if OccursAt(s, pat, i) then Some(i)
    else if i == |s| then None
    else IndexFrom(s, pat, i + 1)
  }

  /** `s.indexOf(pat)`, with `None` for -1: the first position at which `pat` occurs. */
  function IndexOf(s: string, pat: string): Option<nat> {
    IndexFrom(s, pat, 0)
  }

  /** `s.includes(pat)` */
  predicate Contains(s: string, pat: string) {
    IndexOf(s, pat).Some?
  }

  /** `s.replace(pat, rep)` with a string pattern: only the first occurrence is replaced. */
  function ReplaceFirst(s: string, pat: string, rep: string): string {
    match IndexOf(s, pat)
    case None => s
    case Some(i) => s[..i] + rep + s[i + |pat|..]
  }

  /** `s.split(sep)` for a one-character separator. */
  function Split(s: string, sep: char): (parts: seq<string>)
    ensures |parts| >= 1
  {
    if s == [] then [""]
    else if s[0] == sep then [""] + Split(s[1..], sep)
    else
      var rest := Split(s[1..], sep);
      [[s[0]] + rest[0]] + rest[1..]
  }

  /** `parts.join(sep)` */
  function Join(parts: seq<string>, sep: string): string {
    if parts == [] then ""
    else if |parts| == 1 then parts[0]
    else parts[0] + sep + Join(parts[1..], sep)
  }

  /** `s.split(' ')[0]`: everything before the first space. */
  function FirstToken(s: string): string {
    Split(s, ' ')[0]
  }

  /** `s.split(' ', 2)[1]`: the text between the first and the second space, `None` for `undefined`. */
  function SecondField(s: string): Option<string> {
    var parts := Split(s, ' ');
    if |parts| >= 2 then Some(parts[1]) else None
  }

  function TrimStart(s: string): string {
    if s != [] && IsJsWhitespace(s[0]) then TrimStart(s[1..]) else s
  }

  function TrimEnd(s: string): string {
    if s != [] && IsJsWhitespace(s[|s| - 1]) then TrimEnd(s[..|s| - 1]) else s
  }

  /** `s.trim()` */
  function Trim(s: string): string {
    TrimEnd(TrimStart(s))
  }

  /** Splitting and joining again with the same separator gives back the input. */
  lemma {:induction false} SplitJoin(s: string, sep: char)
    ensures Join(Split(s, sep), [sep]) == s
  {
    if s != [] {
      SplitJoin(s[1..], sep);
      if s[0] == sep {
        SplitJoinAtSeparator(s, sep);
      } else {
        SplitJoinAtOther(s, sep);
      }
    }
  }

  lemma SplitJoinAtSeparator(s: string, sep: char)
    requires s != [] && s[0] == sep
    requires Join(Split(s[1..], sep), [sep]) == s[1..]
    ensures Join(Split(s, sep), [sep]) == s
  {
    var rest := Split(s[1..], sep);
    var parts := [""] + rest;
    assert Split(s, sep) == parts;
    assert parts[1..] == rest;
    assert s == [sep] + s[1..];
  }

  lemma SplitJoinAtOther(s: string, sep: char)
    requires s != [] && s[0] != sep
    requires Join(Split(s[1..], sep), [sep]) == s[1..]
    ensures Join(Split(s, sep), [sep]) == s
  {
    SplitAtOther(s, sep);
    JoinHead(s[0], Split(s[1..], sep), [sep]);
    assert s == [s[0]] + s[1..];
  }

  lemma SplitAtOther(s: string, sep: char)
    requires s != [] && s[0] != sep
    ensures Split(s, sep) == [[s[0]] + Split(s[1..], sep)[0]] + Split(s[1..], sep)[1..]
  {
  }

  /** Putting a character in front of the first part puts it in front of the joined text. */
  lemma JoinHead(c: char, parts: seq<string>, sep: string)
    requires |parts| >= 1
    ensures Join([[c] + parts[0]] + parts[1..], sep) == [c] + Join(parts, sep)
  {
    var longer := [[c] + parts[0]] + parts[1..];
    if |parts| > 1 {
      assert longer[1..] == parts[1..];
      JoinCons(longer, sep);
      JoinCons(parts, sep);
      assert [c] + parts[0] + sep + Join(parts[1..], sep) == [c] + (parts[0] + sep + Join(parts[1..], sep));
    }
  }

  lemma JoinCons(parts: seq<string>, sep: string)
    requires |parts| >= 2
    ensures Join(parts, sep) == parts[0] + sep + Join(parts[1..], sep)
  {
  }

  /** No part of a split holds the separator. */
  lemma {:induction false} SplitPartsFree(s: string, sep: char)
    ensures forall i :: 0 <= i < |Split(s, sep)| ==> sep !in Split(s, sep)[i]
  {
    if s != [] {
      SplitPartsFree(s[1..], sep);
      var rest := Split(s[1..], sep);
      if s[0] != sep {
        forall i | 0 <= i < |Split(s, sep)| ensures sep !in Split(s, sep)[i] {
          if i > 0 {
            assert Split(s, sep)[i] == rest[i];
          }
        }
      }
    }
  }

  /** A string without the separator is split into itself alone. */
  lemma {:induction false} SplitWithoutSeparator(s: string, sep: char)
    requires sep !in s
    ensures Split(s, sep) == [s]
  {
    if s != [] {
      SplitWithoutSeparator(s[1..], sep);
      assert s == [s[0]] + s[1..];
    }
  }

  /** `indexOf` of a one-character pattern is the first index holding that character. */
  lemma IndexOfCharIs(s: string, c: char, i: nat)
    requires i < |s| && s[i] == c
    requires forall j :: 0 <= j < i ==> s[j] != c
    ensures IndexOf(s, [c]) == Some(i)
  {
    OccursAtChar(s, c, i);
    forall j | 0 <= j < i ensures !OccursAt(s, [c], j) {
      OccursAtChar(s, c, j);
    }
  }

  lemma IndexOfCharFound(s: string, c: char)
    requires IndexOf(s, [c]).Some?
    ensures IndexOf(s, [c]).value < |s| && s[IndexOf(s, [c]).value] == c
    ensures forall j :: 0 <= j < IndexOf(s, [c]).value ==> s[j] != c
  {
    var i := IndexOf(s, [c]).value;
    OccursAtChar(s, c, i);
    forall j | 0 <= j < i ensures s[j] != c {
      OccursAtChar(s, c, j);
    }
  }

  lemma IndexOfCharNone(s: string, c: char)
    ensures IndexOf(s, [c]).None? <==> c !in s
  {
    if c in s {
      var k :| 0 <= k < |s| && s[k] == c;
      OccursAtChar(s, c, k);
    } else {
      forall j | 0 <= j <= |s| ensures !OccursAt(s, [c], j) {
        OccursAtChar(s, c, j);
      }
    }
  }

  /** The first occurrence of a single character, seen through concatenation. */
  lemma IndexOfCharConcat(a: string, b: string, c: char)
    ensures c !in a && IndexOf(b, [c]).Some? ==> IndexOf(a + b, [c]) == Some(|a| + IndexOf(b, [c]).value)
    ensures c !in a && IndexOf(b, [c]).None? ==> IndexOf(a + b, [c]).None?
    ensures c in a ==> IndexOf(a + b, [c]) == IndexOf(a, [c])
  {
    IndexOfCharNone(a, c);
    IndexOfCharNone(b, c);
    IndexOfCharNone(a + b, c);
    if c in a {
      IndexOfCharFound(a, c);
      IndexOfCharIs(a + b, c, IndexOf(a, [c]).value);
    } else if IndexOf(b, [c]).Some? {
      IndexOfCharFound(b, c);
      IndexOfCharIs(a + b, c, |a| + IndexOf(b, [c]).value);
    }
  }

  /** Replacing the first occurrence of a character leaves a prefix without that character alone. */
  lemma ReplaceFirstAfterPrefix(a: string, b: string, c: char, rep: string)
    requires c !in a
    ensures ReplaceFirst(a + b, [c], rep) == a + ReplaceFirst(b, [c], rep)
  {
    IndexOfCharConcat(a, b, c);
    if IndexOf(b, [c]).Some? {
      var i := IndexOf(b, [c]).value;
      IndexOfCharFound(b, c);
      var s := a + b;
      assert ReplaceFirst(s, [c], rep) == s[..|a| + i] + rep + s[|a| + i + 1..];
      assert s[..|a| + i] == a + b[..i];
      assert s[|a| + i + 1..] == b[i + 1..];
    }
  }

  /** Once the first operand holds the character, the second operand is never touched. */
  lemma ReplaceFirstInPrefix(a: string, b: string, c: char, rep: string)
    requires c in a
    ensures ReplaceFirst(a + b, [c], rep) == ReplaceFirst(a, [c], rep) + b
  {
    IndexOfCharConcat(a, b, c);
    IndexOfCharNone(a, c);
    var i := IndexOf(a, [c]).value;
    IndexOfCharFound(a, c);
    var s := a + b;
    assert ReplaceFirst(s, [c], rep) == s[..i] + rep + s[i + 1..];
    assert s[..i] == a[..i];
    assert s[i + 1..] == a[i + 1..] + b;
  }

  /** A string that starts with the character has that first character replaced. */
  lemma ReplaceFirstLeading(c: char, rest: string, rep: string)
    ensures ReplaceFirst([c] + rest, [c], rep) == rep + rest
  {
    IndexOfCharIs([c] + rest, c, 0);
    var s := [c] + rest;
    assert s[1..] == rest;
  }

  /** The first occurrence of a character, after a part without it, is the one replaced. */
  lemma ReplaceFirstAtSeparator(a: string, c: char, b: string, rep: string)
    requires c !in a
    ensures ReplaceFirst(a + [c] + b, [c], rep) == a + rep + b
  {
    assert a + [c] + b == a + ([c] + b);
    ReplaceFirstAfterPrefix(a, [c] + b, c, rep);
    ReplaceFirstLeading(c, b, rep);
    assert a + (rep + b) == a + rep + b;
  }

  /** A string without the character is left as it is. */
  lemma ReplaceFirstAbsent(s: string, c: char, rep: string)
    requires c !in s
    ensures ReplaceFirst(s, [c], rep) == s
  {
    IndexOfCharNone(s, c);
  }

  lemma OccursAtChar(s: string, c: char, i: nat)
    ensures OccursAt(s, [c], i) <==> i < |s| && s[i] == c
  {
    if i < |s| {
      assert s[i..i + 1] == [s[i]];
    }
  }

  /** A separator at the end adds one empty part after the others. */
  lemma {:induction false} SplitTrailingSeparator(s: string, sep: char)
    ensures Split(s + [sep], sep) == Split(s, sep) + [""]
    decreases |s|
  {
    if s != [] {
      assert (s + [sep])[1..] == s[1..] + [sep];
      SplitTrailingSeparator(s[1..], sep);
    }
  }

  /** Leading white space is removed from the front only. */
  lemma {:induction false} TrimStartAppend(s: string, t: string)
    ensures TrimStart(s) != "" ==> TrimStart(s + t) == TrimStart(s) + t
    ensures TrimStart(s) == "" ==> TrimStart(s + t) == TrimStart(t)
    decreases |s|
  {
    if s == [] {
      assert s + t == t;
    } else if IsJsWhitespace(s[0]) {
      assert (s + t)[1..] == s[1..] + t;
      TrimStartAppend(s[1..], t);
    }
  }

  /** `trim` ignores a line break at the end. */
  lemma TrimTrailingNewline(s: string)
    ensures Trim(s + "\n") == Trim(s)
  {
    TrimStartAppend(s, "\n");
    if TrimStart(s) != "" {
      var t := TrimStart(s);
      assert (t + "\n")[..|t + "\n"| - 1] == t;
    } else {
      assert TrimStart("\n") == "";
    }
  }
}
