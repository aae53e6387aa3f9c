/** The JavaScript string built-ins the comment pipeline relies on, stated on
    sequences of characters: `trim`, `replace(/<.*?>/g, "")`, `indexOf`,
    `includes`, `split`, `join`, `find` over tokens and `toLowerCase`. */
module JsStrings {
  import opened Wrappers

  /** A JavaScript string value is truthy exactly when it is defined and
      non-empty: `undefined` and `""` are the only falsy strings. */
  predicate IsTruthy(s: Option<string>): (r: bool)
    ensures !r <==> s == None || s == Some("")
  {
    s.Some? && s.value != ""
  }

  // ---------------------------------------------------------------- trim

  /** ECMAScript LineTerminator: the characters the regular-expression `.`
      does not match. None of them is a printable ASCII character. */
  predicate IsLineTerminator(c: char): (r: bool)
    ensures r ==> !(' ' <= c <= '~')
    ensures c == '\n' || c == '\r' ==> r
  {
    c == '\n' || c == '\r' || c == '\U{2028}' || c == '\U{2029}'
  }

  /** ECMAScript WhiteSpace: TAB, VT, FF, ZWNBSP and the space separators
      (category Zs). No white space is a line terminator, and the only
      printable ASCII white space is the space itself. */
  predicate IsWhiteSpace(c: char): (r: bool)
    ensures r ==> !IsLineTerminator(c)
    ensures r ==> !('!' <= c <= '~')
    ensures c == ' ' || c == '\t' ==> r
  {
    c == '\t' || c == '\U{B}' || c == '\U{C}' || c == '\U{FEFF}'
    || c == ' ' || c == '\U{A0}' || c == '\U{1680}' || ('\U{2000}' <= c <= '\U{200A}')
    || c == '\U{202F}' || c == '\U{205F}' || c == '\U{3000}'
  }

  /** What `String.prototype.trim` removes at both ends: never a visible
      ASCII character, always a space, tab, line feed or carriage return. */
  predicate IsTrimmable(c: char): (r: bool)
    ensures r ==> !('!' <= c <= '~')
    ensures c == ' ' || c == '\t' || c == '\n' || c == '\r' ==> r
  {
    IsWhiteSpace(c) || IsLineTerminator(c)
  }

  /** `s` without its leading run of characters satisfying `p`. */
  function DropLeading(s: string, p: char -> bool): (r: string)
    ensures |r| <= |s| && r == s[|s| - |r|..]
    ensures forall i :: 0 <= i < |s| - |r| ==> p(s[i])
    ensures r == [] || !p(r[0])
  {
    if s != [] && p(s[0]) then DropLeading(s[1..], p) else s
  }

  /** `s` without its trailing run of characters satisfying `p`. */
  function DropTrailing(s: string, p: char -> bool): (r: string)
    ensures |r| <= |s| && r == s[..|r|]
    ensures forall i :: |r| <= i < |s| ==> p(s[i])
    ensures r == [] || !p(r[|r| - 1])
  {
    if s != [] && p(s[|s| - 1]) then DropTrailing(s[..|s| - 1], p) else s
  }

  /** Every character of `s` satisfies `p`. */
  predicate All(s: string, p: char -> bool) {
    forall i :: 0 <= i < |s| ==> p(s[i])
  }

  /** Neither end of `s` satisfies `p`. */
  predicate NoEnds(s: string, p: char -> bool) {
    s == [] || (!p(s[0]) && !p(s[|s| - 1]))
  }

  /** Neither end of `s` is trimmable. */
  predicate NoTrimmableEnds(s: string) {
    NoEnds(s, IsTrimmable)
  }

  /** `r` is the slice of `s` from `a`, and every character of `s` in front
      of it and behind it satisfies `p`. */
  predicate SliceBetween(s: string, a: int, r: string, p: char -> bool) {
    && 0 <= a && a + |r| <= |s| && r == s[a..a + |r|]
    && (forall i :: 0 <= i < a ==> p(s[i]))
    && (forall i :: a + |r| <= i < |s| ==> p(s[i]))
  }

  /** `s` without the runs of characters satisfying `p` at both ends: the
      slice between them, empty exactly when all of `s` satisfies `p`, and
      `s` itself when neither end does. */
  function Strip(s: string, p: char -> bool): (r: string)
    ensures |r| <= |s|
    ensures NoEnds(r, p)
    ensures r == [] <==> All(s, p)
    ensures NoEnds(s, p) ==> r == s
    ensures exists a :: SliceBetween(s, a, r, p)
  {
    var t := DropLeading(s, p);
    var r := DropTrailing(t, p);
    DroppedEnds(s, t, r, p);
    r
  }

  /** `s.trim()`: the slice of `s` left after dropping the trimmable
      characters at both ends. The result has no trimmable character at either
      end, it is empty exactly when `s` is all trimmable, and it is `s` itself
      when `s` had nothing to trim (so trimming twice is trimming once). */
  function Trim(s: string): (r: string)
    ensures |r| <= |s|
    ensures NoTrimmableEnds(r)
    ensures r == [] <==> All(s, IsTrimmable)
    ensures NoTrimmableEnds(s) ==> r == s
    ensures exists a :: SliceBetween(s, a, r, IsTrimmable)
  {
    Strip(s, IsTrimmable)
  }

  /** Dropping a run of `p` characters from the front of `s` (giving `t`) and
      then from the back of `t` (giving `r`) leaves the slice of `s` between
      the two runs. Stated for any `p`, so the proof never unfolds which
      characters are trimmable. */
  lemma DroppedEnds(s: string, t: string, r: string, p: char -> bool)
    requires |t| <= |s| && t == s[|s| - |t|..]
    requires forall i :: 0 <= i < |s| - |t| ==> p(s[i])
    requires t == [] || !p(t[0])
    requires |r| <= |t| && r == t[..|r|]
    requires forall i :: |r| <= i < |t| ==> p(t[i])
    requires r == [] || !p(r[|r| - 1])
    ensures SliceBetween(s, |s| - |t|, r, p)
    ensures NoEnds(r, p)
    ensures r == [] <==> All(s, p)
    ensures NoEnds(s, p) ==> r == s
  {
    var a := |s| - |t|;
    forall i | a + |r| <= i < |s|
      ensures p(s[i])
    {
      assert s[i] == t[i - a];
    }
    if r != [] {
      assert r[0] == t[0] == s[a];
    }
    assert s[0..|s|] == s;
    assert SliceBetween(s, a, r, p);
  }

  // ------------------------------------------------ replace(/<.*?>/g, "")

  /** Where the shortest tag opened just before `t` closes: the index in `t`
      of the first `>`, provided no line terminator comes before it (the lazy
      `.*?` cannot cross a line terminator). */
  function TagClose(t: string): (r: Option<nat>)
    ensures r.Some? ==> r.value < |t| && t[r.value] == '>'
    ensures r.Some? ==> forall i :: 0 <= i < r.value ==> t[i] != '>' && !IsLineTerminator(t[i])
  {
    if t == [] then None
    else if t[0] == '>' then Some(0)
    else if IsLineTerminator(t[0]) then None
    else match TagClose(t[1..])
      case None => None
      case Some(k) => Some(k + 1)
  }

  /** `s.replace(/<.*?>/g, "")`: scanning left to right, a `<` whose tag closes
      on the same line is removed together with that shortest tag, and the scan
      resumes after its `>`; every other character is kept. */
  function StripTags(s: string): (r: string)
    ensures |r| <= |s|
    decreases |s|
  {
    if s == [] then []
    else if s[0] == '<' && TagClose(s[1..]).Some? then StripTags(s[TagClose(s[1..]).value + 2..])
    else [s[0]] + StripTags(s[1..])
  }

  /** No match of `<.*?>` is left: no `<` is followed by a `>` on its line. */
  predicate TagFree(s: string) {
    s == [] || ((s[0] != '<' || TagClose(s[1..]).None?) && TagFree(s[1..]))
  }

  /** Stripping never creates a tag after a `<` that had none. */
  lemma {:induction false} StripTagsKeepsUnclosed(t: string)
    requires TagClose(t).None?
    ensures TagClose(StripTags(t)).None?
    decreases |t|
  {
    if t != [] && !IsLineTerminator(t[0]) {
      StripTagsKeepsUnclosed(t[1..]);
      var x := StripTags(t[1..]);
      assert StripTags(t) == [t[0]] + x;
      assert ([t[0]] + x)[1..] == x;
    }
  }

  /** The result of stripping contains no tag. */
  lemma {:induction false} StripTagsIsTagFree(s: string)
    ensures TagFree(StripTags(s))
    decreases |s|
  {
    if s != [] {
      if s[0] == '<' && TagClose(s[1..]).Some? {
        StripTagsIsTagFree(s[TagClose(s[1..]).value + 2..]);
      } else {
        StripTagsIsTagFree(s[1..]);
        var x := StripTags(s[1..]);
        if s[0] == '<' {
          StripTagsKeepsUnclosed(s[1..]);
        }
        assert ([s[0]] + x)[1..] == x;
      }
    }
  }

  /** A string without tags is left as it is. */
  lemma {:induction false} TagFreeIsFixed(s: string)
    requires TagFree(s)
    ensures StripTags(s) == s
    decreases |s|
  {
    if s != [] {
      TagFreeIsFixed(s[1..]);
      assert [s[0]] + s[1..] == s;
    }
  }

  /** Stripping twice is stripping once. */
  lemma StripTagsIdempotent(s: string)
    ensures StripTags(StripTags(s)) == StripTags(s)
  {
    StripTagsIsTagFree(s);
    TagFreeIsFixed(StripTags(s));
  }

  /** Text without `<` passes through untouched. */
  lemma {:induction false} NoAngleUnchanged(s: string)
    requires forall i :: 0 <= i < |s| ==> s[i] != '<'
    ensures StripTags(s) == s
    decreases |s|
  {
    if s != [] {
      NoAngleUnchanged(s[1..]);
      assert [s[0]] + s[1..] == s;
    }
  }

  /** A leading tag closed on its own line disappears with everything in it. */
  lemma {:induction false} LeadingTagRemoved(inner: string, rest: string)
    requires forall i :: 0 <= i < |inner| ==> inner[i] != '>' && !IsLineTerminator(inner[i])
    ensures StripTags("<" + inner + ">" + rest) == StripTags(rest)
    decreases |inner|
  {
    var s := "<" + inner + ">" + rest;
    TagCloseAt(inner, rest);
    assert s[1..] == inner + ">" + rest;
    assert s[|inner| + 2..] == rest;
  }

  lemma {:induction false} TagCloseAt(inner: string, rest: string)
    requires forall i :: 0 <= i < |inner| ==> inner[i] != '>' && !IsLineTerminator(inner[i])
    ensures TagClose(inner + ">" + rest) == Some(|inner|)
    decreases |inner|
  {
    if inner != [] {
      TagCloseAt(inner[1..], rest);
      assert (inner + ">" + rest)[1..] == inner[1..] + ">" + rest;
    }
  }

  // ------------------------------------------------------ indexOf, includes

  /** `sub` occurs in `s` starting at index `i`. */
  predicate OccursAt(s: string, sub: string, i: int) {
    0 <= i && i + |sub| <= |s| && s[i..i + |sub|] == sub
  }

  lemma OccursShift(s: string, sub: string)
    requires |s| > 0
    ensures forall j :: 1 <= j ==> (OccursAt(s, sub, j) <==> OccursAt(s[1..], sub, j - 1))
  {
    forall j | 1 <= j
      ensures OccursAt(s, sub, j) <==> OccursAt(s[1..], sub, j - 1)
    {
      if j + |sub| <= |s| {
        assert s[1..][j - 1..j - 1 + |sub|] == s[j..j + |sub|];
      }
    }
  }

  /** `s.indexOf(sub)`, with None for -1: the first position where `sub` occurs. */
  function IndexOf(s: string, sub: string): (r: Option<nat>)
    ensures r.Some? ==> OccursAt(s, sub, r.value)
    ensures r.Some? ==> forall j :: 0 <= j < r.value ==> !OccursAt(s, sub, j)
    ensures r.None? ==> forall j :: !OccursAt(s, sub, j)
    decreases |s|
  {
    if |s| < |sub| then None
    else if s[..|sub|] == sub then Some(0)
    else
      OccursShift(s, sub);
      match IndexOf(s[1..], sub)
      case None => None
      case Some(k) => Some(k + 1)
  }

  /** `s.includes(sub)`. */
  function Contains(s: string, sub: string): (r: bool)
    ensures r <==> exists j :: OccursAt(s, sub, j)
  {
    IndexOf(s, sub).Some?
  }

  /** A string that includes `sub` is at least as long as `sub`. */
  lemma ContainsIsLonger(s: string, sub: string)
    requires Contains(s, sub)
    ensures |sub| <= |s|
  {
    var j :| OccursAt(s, sub, j);
  }

  /** IndexOf finds exactly the first occurrence. */
  lemma IndexOfFirst(s: string, sub: string, i: nat)
    requires OccursAt(s, sub, i)
    requires forall j :: 0 <= j < i ==> !OccursAt(s, sub, j)
    ensures IndexOf(s, sub) == Some(i)
  {
  }

  lemma NoOccurrenceInPrefix(s: string, sub: string, j: nat)
    requires |sub| > 0 && j <= |s|
    requires forall k :: 0 <= k < j ==> !OccursAt(s, sub, k)
    ensures forall k :: !OccursAt(s[..j], sub, k)
  {
    forall k | OccursAt(s[..j], sub, k)
      ensures false
    {
      assert s[..j][k..k + |sub|] == s[k..k + |sub|];
      assert OccursAt(s, sub, k);
    }
  }

  // ----------------------------------------------------------- split, join

  /** `v` is the field of `s` that starts at `start` and ends at the end of
      `s` or where `sep` occurs next: no occurrence starts inside it. */
  predicate FieldAt(s: string, sep: string, start: int, v: string) {
    && 0 <= start && start + |v| <= |s| && s[start..start + |v|] == v
    && (start + |v| == |s| || OccursAt(s, sep, start + |v|))
    && (forall k :: start <= k < start + |v| ==> !OccursAt(s, sep, k))
  }

  /** `s.split(sep)[1]` for a non-empty separator: the text between the first
      and the second occurrence of `sep` (or the end of `s`); None plays
      `undefined`, which is what JavaScript gives when `sep` does not occur. */
  function SplitSecond(s: string, sep: string): (r: Option<string>)
    requires |sep| > 0
    ensures r.None? <==> !Contains(s, sep)
    ensures r.Some? ==> !Contains(r.value, sep)
    ensures r.Some? ==> FieldAt(s, sep, IndexOf(s, sep).value + |sep|, r.value)
  {
    match IndexOf(s, sep)
    case None => None
    case Some(i) =>
      var rest := s[i + |sep|..];
      OccursInSuffix(s, sep, i + |sep|);
      match IndexOf(rest, sep)
      case None =>
        assert FieldAt(s, sep, i + |sep|, rest) by {
          assert s[i + |sep|..i + |sep| + |rest|] == rest;
        }
        Some(rest)
      case Some(j) =>
        NoOccurrenceInPrefix(rest, sep, j);
        assert FieldAt(s, sep, i + |sep|, rest[..j]) by {
          assert rest[..j] == s[i + |sep|..i + |sep| + j];
        }
        Some(rest[..j])
  }

  /** The occurrences in a suffix are the occurrences in the whole string
      from where the suffix starts, shifted. */
  lemma OccursInSuffix(s: string, sep: string, start: nat)
    requires start <= |s|
    ensures forall k :: start <= k ==> (OccursAt(s, sep, k) <==> OccursAt(s[start..], sep, k - start))
  {
    forall k | start <= k
      ensures OccursAt(s, sep, k) <==> OccursAt(s[start..], sep, k - start)
    {
      if k + |sep| <= |s| {
        assert s[start..][k - start..k - start + |sep|] == s[k..k + |sep|];
      }
    }
  }

  lemma FirstOccurrenceExtends(prefix: string, sep: string, rest: string)
    requires IndexOf(prefix + sep, sep) == Some(|prefix|)
    ensures IndexOf(prefix + sep + rest, sep) == Some(|prefix|)
  {
    var s := prefix + sep + rest;
    forall j | 0 <= j < |prefix|
      ensures !OccursAt(s, sep, j)
    {
      if OccursAt(s, sep, j) {
        assert s[j..j + |sep|] == (prefix + sep)[j..j + |sep|];
        assert OccursAt(prefix + sep, sep, j);
      }
    }
    assert s[|prefix|..|prefix| + |sep|] == sep;
    IndexOfFirst(s, sep, |prefix|);
  }

  /** A separator found first where the prefix ends, followed by text free of
      it: the second field is that text. */
  lemma SplitSecondAfter(prefix: string, sep: string, rest: string)
    requires |sep| > 0
    requires IndexOf(prefix + sep, sep) == Some(|prefix|)
    requires !Contains(rest, sep)
    ensures SplitSecond(prefix + sep + rest, sep) == Some(rest)
  {
    var s := prefix + sep + rest;
    FirstOccurrenceExtends(prefix, sep, rest);
    assert s[|prefix| + |sep|..] == rest;
  }

  /** `s.split(sep)` for a one-character separator: the pieces between the
      separators, none of which contains the separator. */
  function Split(s: string, sep: char): (r: seq<string>)
    ensures |r| >= 1
    ensures forall i :: 0 <= i < |r| ==> sep !in r[i]
  {
    if s == [] then [[]]
    else
      var rest := Split(s[1..], sep);
      if s[0] == sep then [[]] + rest
      else [[s[0]] + rest[0]] + rest[1..]
  }

  /** `parts.join(sep)` for a one-character separator. */
  function Join(parts: seq<string>, sep: char): (r: string)
    ensures |parts| == 0 ==> r == []
    ensures |parts| > 0 ==> |parts[0]| <= |r| && r[..|parts[0]|] == parts[0]
    ensures |parts| > 1 ==> |parts[0]| < |r| && r[|parts[0]|] == sep
  {
    if |parts| == 0 then []
    else if |parts| == 1 then parts[0]
    else parts[0] + [sep] + Join(parts[1..], sep)
  }

  /** Joining one more part adds a separator and that part at the end. */
  lemma {:induction false} JoinSnoc(parts: seq<string>, x: string, sep: char)
    requires |parts| > 0
    ensures Join(parts + [x], sep) == Join(parts, sep) + [sep] + x
  {
    if |parts| > 1 {
      JoinSnoc(parts[1..], x, sep);
      assert (parts + [x])[1..] == parts[1..] + [x];
    }
  }

  /** Splitting inverts joining. */
  lemma {:induction false} JoinSplit(s: string, sep: char)
    ensures Join(Split(s, sep), sep) == s
    decreases |s|
  {
    if s != [] {
      JoinSplit(s[1..], sep);
      var rest := Split(s[1..], sep);
      if s[0] == sep {
        assert ([[]] + rest)[1..] == rest;
      } else if |rest| > 1 {
        assert ([[s[0]] + rest[0]] + rest[1..])[1..] == rest[1..];
      }
      assert s == [s[0]] + s[1..];
    }
  }

  lemma {:induction false} SplitPrefix(p: string, t: string, sep: char)
    requires sep !in p
    ensures Split(p + t, sep) == [p + Split(t, sep)[0]] + Split(t, sep)[1..]
    decreases |p|
  {
    if p == [] {
      assert p + t == t;
      var st := Split(t, sep);
      assert p + st[0] == st[0];
      assert [st[0]] + st[1..] == st;
    } else {
      SplitPrefix(p[1..], t, sep);
      assert (p + t)[1..] == p[1..] + t;
      assert [p[0]] + (p[1..] + Split(t, sep)[0]) == p + Split(t, sep)[0];
    }
  }

  /** Joining inverts splitting when no part holds the separator. */
  lemma {:induction false} SplitJoin(parts: seq<string>, sep: char)
    requires |parts| > 0
    requires forall i :: 0 <= i < |parts| ==> sep !in parts[i]
    ensures Split(Join(parts, sep), sep) == parts
  {
    if |parts| == 1 {
      SplitPrefix(parts[0], [], sep);
      assert parts[0] + [] == parts[0];
    } else {
      var rest := parts[1..];
      var j := Join(rest, sep);
      SplitJoin(rest, sep);
      var tail := [sep] + j;
      assert tail[1..] == j;
      assert Split(tail, sep) == [[]] + rest;
      assert Join(parts, sep) == parts[0] + tail;
      SplitPrefix(parts[0], tail, sep);
      assert parts[0] + [] == parts[0];
      assert ([[]] + rest)[1..] == rest;
      assert parts == [parts[0]] + rest;
    }
  }

  // ---------------------------------------------------------- find, lower

  /** `tokens.find(t => t.includes(needle))`: the first token containing `needle`. */
  function FindContaining(tokens: seq<string>, needle: string): (r: Option<string>)
    ensures r.None? <==> forall i :: 0 <= i < |tokens| ==> !Contains(tokens[i], needle)
    ensures r.Some? ==> exists i :: 0 <= i < |tokens| && tokens[i] == r.value
                                    && Contains(tokens[i], needle)
                                    && forall j :: 0 <= j < i ==> !Contains(tokens[j], needle)
  {
    if tokens == [] then None
    else if Contains(tokens[0], needle) then Some(tokens[0])
    else
      var r := FindContaining(tokens[1..], needle);
      assert forall i :: 1 <= i < |tokens| ==> tokens[1..][i - 1] == tokens[i];
      r
  }

  function LowerChar(c: char): char {
    if 'A' <= c <= 'Z' then (c as int + 32) as char else c
  }

  /** `s.toLowerCase()` on ASCII letters; every other character is kept. */
  function ToLowerAscii(s: string): (r: string)
    ensures |r| == |s| && forall i :: 0 <= i < |s| ==> r[i] == LowerChar(s[i])
  {
    seq(|s|, i requires 0 <= i < |s| => LowerChar(s[i]))
  }
}
