/** The string a path is stored under.

    The capture brings a path into form and falls back on a sanitised one; the IR refuses
    forms it cannot use, and then a sanitised or a fixed path is stored instead. */
module PathForm {
  import opened Options

  // ------------------------------------------------------------------ strings

  predicate ContainsAt(s: string, sub: string, i: nat) {
    i + |sub| <= |s| && s[i..i + |sub|] == sub
  }

  predicate Contains(s: string, sub: string) {
    exists i :: 0 <= i <= |s| && ContainsAt(s, sub, i)
  }

  /** `sub` stands somewhere in `s`, with anything before and after. */
  ghost predicate Infix(s: string, sub: string) {
    exists p: string, q: string :: s == p + sub + q
  }

  lemma ContainsIsInfix(s: string, sub: string)
    ensures Contains(s, sub) <==> Infix(s, sub)
  {
    if Contains(s, sub) {
      var i :| 0 <= i <= |s| && ContainsAt(s, sub, i);
      assert s == s[..i] + sub + s[i + |sub|..];
    }
    if Infix(s, sub) {
      var p: string, q: string :| s == p + sub + q;
      assert ContainsAt(s, sub, |p|);
    }
  }

  /** Unicode white space, as `char::is_whitespace` has it. */
  predicate IsSpace(c: char) {
    var n := c as int;
    || 0x09 <= n <= 0x0D || n in {0x20, 0x85, 0xA0, 0x1680, 0x2028, 0x2029, 0x202F, 0x205F, 0x3000}
    || 0x2000 <= n <= 0x200A
  }

  function Trim(s: string): string {
    if s != [] && IsSpace(s[0]) then Trim(s[1..])
    else if s != [] && IsSpace(s[|s| - 1]) then Trim(s[..|s| - 1])
    else s
  }

  /** Where "::" first occurs in `s` from `i` on; `|s|` if nowhere. */
  function NextSeparator(s: string, i: nat): (k: nat)
    requires i <= |s|
    ensures i <= k <= |s| && (k < |s| ==> k + 2 <= |s|)
    decreases |s| - i
  {
    if i + 2 > |s| then |s| else if s[i..i + 2] == "::" then i else NextSeparator(s, i + 1)
  }

  /** `s.split("::")`. */
  function Segments(s: string): seq<string>
    decreases |s|
  {
    var k := NextSeparator(s, 0);
    if k == |s| then [s] else [s[..k]] + Segments(s[k + 2..])
  }

  function NonEmpty(segs: seq<string>): seq<string> {
    if segs == [] then []
    else if segs[0] == "" then NonEmpty(segs[1..])
    else [segs[0]] + NonEmpty(segs[1..])
  }

  /** `segs.join("::")`. */
  function Join(segs: seq<string>): string {
    if segs == [] then "" else if |segs| == 1 then segs[0] else segs[0] + "::" + Join(segs[1..])
  }

  // ---------------------------------------------------------------- the capture's form

  /** Everything outside angle brackets; an unmatched closing bracket is dropped. */
  function StripGenerics(s: string, depth: nat): string {
    if s == "" then ""
    else if s[0] == '<' then StripGenerics(s[1..], depth + 1)
    else if s[0] == '>' then StripGenerics(s[1..], if depth > 0 then depth - 1 else 0)
    else if depth == 0 then [s[0]] + StripGenerics(s[1..], 0)
    else StripGenerics(s[1..], depth)
  }

  /** The angle brackets match. */
  predicate Matched(s: string, depth: nat) {
    if s == "" then depth == 0
    else if s[0] == '<' then Matched(s[1..], depth + 1)
    else if s[0] == '>' then depth > 0 && Matched(s[1..], depth - 1)
    else Matched(s[1..], depth)
  }

  function Rooted(s: string): string {
    if "$crate::" <= s then "crate::" + s[8..] else s
  }

  predicate BadFragment(s: string) {
    || '$' in s || '{' in s || '}' in s || Contains(s, "=>") || '!' in s || '(' in s || ')' in s
    || ":" <= s || (s != "" && s[|s| - 1] == ':')
  }

  function Cleaned(seg: string): (r: string)
    ensures |r| == |seg| && forall i :: 0 <= i < |seg| ==> r[i] == seg[i] || (r[i] == '_' && !IsWordChar(seg[i]))
  {
    seq(|seg|, i requires 0 <= i < |seg| => if IsWordChar(seg[i]) then seg[i] else '_')
  }

  predicate IsWordChar(c: char) {
    'a' <= c <= 'z' || 'A' <= c <= 'Z' || '0' <= c <= '9' || c == '_'
  }

  function CleanedAll(segs: seq<string>): seq<string> {
    if segs == [] then [] else [Cleaned(segs[0])] + CleanedAll(segs[1..])
  }

  function Sanitized(raw: string): string {
    var trimmed := Trim(raw);
    if trimmed == "" then "invalid_path"
    else
      var joined := Join(NonEmpty(CleanedAll(Segments(StripGenerics(Rooted(trimmed), 0)))));
      if joined == "" then "invalid_path" else joined
  }

  /** `canonicalize_path_fragment`: the normal form if nothing is wrong with it, else the sanitised one. */
  function Fragment(raw: string): string {
    var trimmed := Trim(raw);
    var rooted := Rooted(trimmed);
    var segs := Segments(StripGenerics(rooted, 0));
    var out := Join(NonEmpty(segs));
    if trimmed == "" || !Matched(rooted, 0) || "" in segs || out == "" || BadFragment(out) then Sanitized(raw) else out
  }

  // -------------------------------------------------------------------- the IR's form

  predicate Reserved(seg: string) {
    seg == "_" || "__" <= seg
  }

  predicate HasReserved(segs: seq<string>) {
    exists i :: 0 <= i < |segs| && Reserved(segs[i])
  }

  /** `canonical_path_form`: the string under which a path is interned, or a refusal. */
  function Accepted(s: string): Option<string> {
    var trimmed := Trim(s);
    var out := if "::" <= trimmed then trimmed[2..] else trimmed;
    if out == "" || '{' in out || '}' in out || Contains(out, "=>") || '!' in out || ":" <= out
       || out[|out| - 1] == ':' || HasReserved(Segments(out))
    then None
    else Some(out)
  }

  /** What `intern_path` stores: the form it is given, else the sanitised one, else a fixed path. */
  function StoredForm(path: string): string {
    var form := Fragment(path);
    if Accepted(form).Some? then Accepted(form).value
    else if Sanitized(path) != form && Accepted(Sanitized(path)).Some? then Accepted(Sanitized(path)).value
    else "invalid_path"
  }

  /** A type path is brought into form twice on its way in. */
  function PathOf(raw: string): string {
    StoredForm(Fragment(raw))
  }

  // ------------------------------------------------------------- splitting and joining

  lemma {:induction false} NoSeparator(s: string, i: nat)
    requires i <= |s| && ':' !in s
    ensures NextSeparator(s, i) == |s|
    decreases |s| - i
  {
    if i + 2 > |s| {
    } else {
      assert s[i..i + 2][0] == s[i] && s[i] in s;
      NoSeparator(s, i + 1);
    }
  }

  /** The separator found is the first one there is. */
  lemma {:induction false} SeparatorIsFirst(s: string, i: nat)
    requires i <= |s|
    ensures var k := NextSeparator(s, i);
      (k < |s| ==> ContainsAt(s, "::", k)) && forall j :: i <= j < k ==> !ContainsAt(s, "::", j)
    decreases |s| - i
  {
    if i + 2 > |s| {
    } else if s[i..i + 2] == "::" {
    } else {
      SeparatorIsFirst(s, i + 1);
    }
  }

  lemma {:induction false} SeparatorAfter(w: string, rest: string, i: nat)
    requires ':' !in w && i <= |w|
    ensures NextSeparator(w + "::" + rest, i) == |w|
    decreases |w| - i
  {
    var s := w + "::" + rest;
    if i < |w| {
      assert s[i..i + 2][0] == w[i] && w[i] in w;
      SeparatorAfter(w, rest, i + 1);
    } else {
      assert s[i..i + 2] == "::";
    }
  }

  /** Joining what was split gives the string back. */
  lemma {:induction false} JoinSegments(s: string)
    ensures Join(Segments(s)) == s && Segments(s) != []
    decreases |s|
  {
    var k := NextSeparator(s, 0);
    if k < |s| {
      SeparatorIsFirst(s, 0);
      JoinSegments(s[k + 2..]);
      var rest := Segments(s[k + 2..]);
      assert Segments(s) == [s[..k]] + rest && Segments(s)[1..] == rest;
      assert s == s[..k] + "::" + s[k + 2..];
    }
  }

  /** Splitting what was joined gives the segments back. */
  lemma {:induction false} SegmentsOfJoin(segs: seq<string>)
    requires segs != [] && forall i :: 0 <= i < |segs| ==> ':' !in segs[i]
    ensures Segments(Join(segs)) == segs
  {
    hide Segments, NextSeparator;
    FirstSegment(segs[0], Join(segs[1..]));
    assert segs == [segs[0]] + segs[1..];
    if |segs| > 1 {
      SegmentsOfJoin(segs[1..]);
    }
  }

  lemma FirstSegment(w: string, rest: string)
    requires ':' !in w
    ensures Segments(w) == [w] && Segments(w + "::" + rest) == [w] + Segments(rest)
  {
    NoSeparator(w, 0);
    SeparatorAfter(w, rest, 0);
    hide NextSeparator;
    var s := w + "::" + rest;
    assert s[..|w|] == w && s[|w| + 2..] == rest;
  }

  // ------------------------------------------------------------- white space

  /** What is trimmed is white space, and none is left at either end. */
  lemma {:induction false} TrimIsCore(s: string) returns (lo: nat, hi: nat)
    ensures lo <= hi <= |s| && Trim(s) == s[lo..hi]
    ensures forall i :: 0 <= i < lo || hi <= i < |s| ==> IsSpace(s[i])
    ensures lo < hi ==> !IsSpace(s[lo]) && !IsSpace(s[hi - 1])
    decreases |s|
  {
    hide IsSpace;
    lo, hi := 0, |s|;
    if s != [] && IsSpace(s[0]) {
      lo, hi := TrimIsCore(s[1..]);
      assert s[1..][lo..hi] == s[lo + 1..hi + 1];
      forall i | 0 <= i < lo + 1 || hi + 1 <= i < |s|
        ensures IsSpace(s[i])
      {
        assert i > 0 ==> s[i] == s[1..][i - 1];
      }
      lo, hi := lo + 1, hi + 1;
    } else if s != [] && IsSpace(s[|s| - 1]) {
      lo, hi := TrimIsCore(s[..|s| - 1]);
      assert s[..|s| - 1][lo..hi] == s[lo..hi];
    }
  }

  lemma NothingToTrim(s: string)
    requires s != "" && !IsSpace(s[0]) && !IsSpace(s[|s| - 1])
    ensures Trim(s) == s
  {
  }

  // ------------------------------------------------------------- generic arguments

  /** Brackets that match are dropped with what they enclose, whatever comes after. */
  lemma {:induction false} StripInside(g: string, depth: nat, rest: string)
    requires depth > 0 && Matched(g, depth - 1)
    ensures StripGenerics(g + rest, depth) == StripGenerics(rest, 1)
    ensures Matched(g + rest, depth) == Matched(rest, 1)
  {
    if g == "" {
      assert g + rest == rest;
    } else {
      var s := g + rest;
      assert s[0] == g[0] && s[1..] == g[1..] + rest;
      StripInside(g[1..], if g[0] == '<' then depth + 1 else if g[0] == '>' then depth - 1 else depth, rest);
    }
  }

  lemma {:induction false} StripBefore(a: string, rest: string)
    requires '<' !in a && '>' !in a
    ensures StripGenerics(a + rest, 0) == a + StripGenerics(rest, 0) && Matched(a + rest, 0) == Matched(rest, 0)
  {
    if a == "" {
      assert a + rest == rest;
    } else {
      var s := a + rest;
      assert a[0] in a && s[0] == a[0] && s[1..] == a[1..] + rest;
      StripBefore(a[1..], rest);
      assert a == [a[0]] + a[1..];
    }
  }

  lemma GenericsAreStripped(a: string, g: string)
    requires '<' !in a && '>' !in a && Matched(g, 0)
    ensures StripGenerics(a, 0) == a && Matched(a, 0)
    ensures StripGenerics(a + "<" + g + ">", 0) == a && Matched(a + "<" + g + ">", 0)
  {
    StripBefore(a, "");
    assert a + "" == a;
    var tail := "<" + g + ">";
    StripBefore(a, tail);
    assert a + "<" + g + ">" == a + tail;
    assert tail[1..] == g + ">";
    StripInside(g, 1, ">");
    assert ">"[1..] == "";
  }

  // ------------------------------------------------------------- paths of identifiers

  predicate IsWord(s: string) {
    forall i :: 0 <= i < |s| ==> IsWordChar(s[i])
  }

  /** One identifier or more. */
  ghost predicate AreWords(segs: seq<string>) {
    segs != [] && forall i :: 0 <= i < |segs| ==> IsWord(segs[i]) && segs[i] != ""
  }

  /** Identifiers, none of which is reserved. */
  ghost predicate AreNames(segs: seq<string>) {
    AreWords(segs) && forall i :: 0 <= i < |segs| ==> !Reserved(segs[i])
  }

  lemma {:induction false} JoinedChars(segs: seq<string>)
    requires AreWords(segs)
    ensures var s := Join(segs);
      && s != "" && IsWordChar(s[0]) && IsWordChar(s[|s| - 1])
      && forall i :: 0 <= i < |s| ==> IsWordChar(s[i]) || s[i] == ':'
  {
    hide IsWordChar;
    if |segs| > 1 {
      JoinedChars(segs[1..]);
      var w, rest := segs[0], Join(segs[1..]);
      var s := w + "::" + rest;
      assert s == Join(segs) && s[|s| - 1] == rest[|rest| - 1];
      forall i | 0 <= i < |s|
        ensures IsWordChar(s[i]) || s[i] == ':'
      {
        if i >= |w| + 2 {
          assert s[i] == rest[i - |w| - 2];
        }
      }
    }
  }

  /** Nothing in such a path is a bracket, white space or punctuation. */
  lemma JoinedHasNo(segs: seq<string>)
    requires AreWords(segs)
    ensures var s := Join(segs);
      && '=' !in s && '{' !in s && '}' !in s && '!' !in s && '$' !in s && '(' !in s && ')' !in s && '<' !in s
      && '>' !in s && Trim(s) == s && !(":" <= s) && s[|s| - 1] != ':' && !Contains(s, "=>")
  {
    JoinedChars(segs);
    var s := Join(segs);
    hide Join;
    assert forall c :: c in s ==> IsWordChar(c) || c == ':';
    NoSubstring(s, "=>");
  }

  lemma JoinedIsSplit(segs: seq<string>)
    requires AreWords(segs)
    ensures Segments(Join(segs)) == segs && NonEmpty(segs) == segs && "" !in segs
  {
    forall i | 0 <= i < |segs|
      ensures ':' !in segs[i]
    {
      assert forall c :: c in segs[i] ==> IsWordChar(c);
    }
    SegmentsOfJoin(segs);
    NoneEmpty(segs);
  }

  lemma {:induction false} NoneEmpty(segs: seq<string>)
    requires forall i :: 0 <= i < |segs| ==> segs[i] != ""
    ensures NonEmpty(segs) == segs
  {
    if segs != [] {
      NoneEmpty(segs[1..]);
    }
  }

  lemma NamesAreAccepted(segs: seq<string>)
    requires AreNames(segs)
    ensures Accepted(Join(segs)) == Some(Join(segs))
  {
    JoinedHasNo(segs);
    JoinedChars(segs);
    JoinedIsSplit(segs);
    hide Join, Trim, Segments, Reserved, Contains, IsWord;
  }

  /** What is identifiers once the generic arguments are gone is brought into that form. */
  lemma FragmentOfWords(segs: seq<string>, t: string)
    requires AreWords(segs) && t != "" && Trim(t) == t
    requires Matched(Rooted(t), 0) && StripGenerics(Rooted(t), 0) == Join(segs)
    ensures Fragment(t) == Join(segs)
  {
    JoinedHasNo(segs);
    JoinedChars(segs);
    JoinedIsSplit(segs);
    hide Join, Trim, Rooted, Segments, NonEmpty, Contains, IsWord, StripGenerics, Matched, Sanitized;
  }

  /** Identifiers are in form, and generic arguments after them are forgotten. */
  lemma WordsAreTheirFragment(segs: seq<string>, g: string)
    requires AreWords(segs) && Matched(g, 0)
    ensures Fragment(Join(segs)) == Join(segs)
    ensures Fragment(Join(segs) + "<" + g + ">") == Join(segs)
  {
    hide Join, Trim, IsWord, StripGenerics, Matched, Fragment, Contains;
    var s := Join(segs);
    JoinedHasNo(segs);
    JoinedChars(segs);
    GenericsAreStripped(s, g);
    var t := s + "<" + g + ">";
    assert t[0] == s[0] && t[|t| - 1] == '>';
    NothingToTrim(t);
    assert Rooted(t) == t && Rooted(s) == s;
    FragmentOfWords(segs, s);
    FragmentOfWords(segs, t);
  }

  /** A macro's name for its own crate is replaced by the plain one. */
  lemma CrateIsNamed(segs: seq<string>)
    requires AreWords(segs)
    ensures Fragment("$crate::" + Join(segs)) == "crate::" + Join(segs)
  {
    assert Matched("", 0);
    hide Join, Trim, IsWord, StripGenerics, Matched, Fragment, Contains;
    var s := Join(segs);
    var t := "$crate::" + s;
    var rooted := ["crate"] + segs;
    JoinedChars(segs);
    assert t[|t| - 1] == s[|s| - 1];
    NothingToTrim(t);
    CrateFirst(segs);
    assert t[8..] == s && Rooted(t) == Join(rooted);
    JoinedHasNo(rooted);
    GenericsAreStripped(Join(rooted), "");
    FragmentOfWords(rooted, t);
  }

  lemma CrateFirst(segs: seq<string>)
    requires AreWords(segs)
    ensures AreWords(["crate"] + segs) && Join(["crate"] + segs) == "crate::" + Join(segs)
  {
    var rooted := ["crate"] + segs;
    assert rooted[1..] == segs;
    assert |"crate"| == 5 && IsWord("crate");
    assert "crate" + "::" == "crate::";
  }

  /** A path of identifiers, none of them reserved, is stored as itself, with or without generic arguments. */
  lemma NamesAreStored(segs: seq<string>, g: string)
    requires AreNames(segs) && Matched(g, 0)
    ensures PathOf(Join(segs)) == Join(segs) == PathOf(Join(segs) + "<" + g + ">")
  {
    hide Fragment, Accepted, Sanitized, Join;
    WordsAreTheirFragment(segs, g);
    NamesAreAccepted(segs);
  }

  /** The last resort is accepted as it is, so interning a path never fails. */
  lemma LastResortIsAccepted()
    ensures Accepted("invalid_path") == Some("invalid_path")
  {
    var s := "invalid_path";
    assert |s| == 12 && s[0] == 'i';
    assert Join([s]) == s;
    NamesAreAccepted([s]);
  }

  lemma NoSubstring(s: string, sub: string)
    requires sub != "" && sub[0] !in s
    ensures !Contains(s, sub)
  {
    forall i | 0 <= i <= |s|
      ensures !ContainsAt(s, sub, i)
    {
      assert i + |sub| <= |s| ==> s[i..i + |sub|][0] == s[i] && s[i] in s;
    }
  }

  // ------------------------------------------------------------- every path

  /** What the IR takes for a path. */
  ghost predicate Acceptable(s: string) {
    && s != "" && s[0] != ':' && s[|s| - 1] != ':'
    && '{' !in s && '}' !in s && '!' !in s && !Infix(s, "=>")
    && forall i :: 0 <= i < |Segments(s)| ==>
         Segments(s)[i] != "_" && !(|Segments(s)[i]| >= 2 && Segments(s)[i][0] == Segments(s)[i][1] == '_')
  }

  lemma AcceptedIsAcceptable(s: string)
    requires Accepted(s).Some?
    ensures Acceptable(Accepted(s).value)
  {
    hide Trim, Segments, Contains, Infix, Reserved;
    var out := Accepted(s).value;
    ContainsIsInfix(out, "=>");
    assert out[0] == ':' ==> ":" <= out;
    forall i | 0 <= i < |Segments(out)|
      ensures Segments(out)[i] != "_" && !(|Segments(out)[i]| >= 2 && Segments(out)[i][0] == Segments(out)[i][1] == '_')
    {
      ReservedNames(Segments(out)[i]);
    }
  }

  lemma ReservedNames(seg: string)
    ensures Reserved(seg) <==> seg == "_" || (|seg| >= 2 && seg[0] == seg[1] == '_')
  {
    if |seg| >= 2 && seg[0] == seg[1] == '_' {
      assert seg[..2] == "__";
    }
  }

  /** Whatever the compiler says, what is stored is acceptable. */
  lemma StoredIsAcceptable(raw: string)
    ensures Acceptable(PathOf(raw))
  {
    hide Fragment, Sanitized, Accepted, Acceptable;
    var path := Fragment(raw);
    LastResortIsAccepted();
    AcceptedIsAcceptable("invalid_path");
    if Accepted(Fragment(path)).Some? {
      AcceptedIsAcceptable(Fragment(path));
    }
    if Accepted(Sanitized(path)).Some? {
      AcceptedIsAcceptable(Sanitized(path));
    }
  }

  /** Sanitising leaves identifiers, whatever it starts from. */
  lemma SanitizedIsWords(raw: string) returns (segs: seq<string>)
    ensures AreWords(segs) && Sanitized(raw) == Join(segs)
  {
    var s := "invalid_path";
    assert |s| == 12 && IsWord(s) && Join([s]) == s;
    segs := [s];
    if Trim(raw) != "" {
      var cleaned := NonEmpty(CleanedAll(Segments(StripGenerics(Rooted(Trim(raw)), 0))));
      CleanedAreWords(Segments(StripGenerics(Rooted(Trim(raw)), 0)));
      if Join(cleaned) != "" {
        segs := cleaned;
      }
    }
  }

  lemma {:induction false} CleanedAreWords(segs: seq<string>)
    ensures forall i :: 0 <= i < |NonEmpty(CleanedAll(segs))| ==>
      IsWord(NonEmpty(CleanedAll(segs))[i]) && NonEmpty(CleanedAll(segs))[i] != ""
  {
    if segs != [] {
      CleanedAreWords(segs[1..]);
      assert CleanedAll(segs)[1..] == CleanedAll(segs[1..]);
      assert IsWordChar('_') && IsWord(Cleaned(segs[0]));
    }
  }

  lemma {:induction false} StrippedHasNoBrackets(s: string, depth: nat)
    ensures '<' !in StripGenerics(s, depth) && '>' !in StripGenerics(s, depth)
  {
    if s != "" {
      StrippedHasNoBrackets(s[1..], if s[0] == '<' then depth + 1 else if s[0] == '>' &&
          depth > 0 then depth - 1 else depth);
    }
  }

  /** Free of everything that the capture refuses. */
  ghost predicate InForm(s: string) {
    && s != "" && s[0] != ':' && s[|s| - 1] != ':' && !Infix(s, "=>")
    && forall c :: c in s ==> c !in {'$', '{', '}', '!', '(', ')', '<', '>'}
  }

  lemma WordsAreInForm(segs: seq<string>)
    requires AreWords(segs)
    ensures InForm(Join(segs))
  {
    var s := Join(segs);
    JoinedHasNo(segs);
    JoinedChars(segs);
    ContainsIsInfix(s, "=>");
    hide Join, Infix, Contains;
  }

  /** Whatever the raw path, its form is free of all that, and it is the trimmed path without its generic arguments
      unless that had to be sanitised. */
  lemma FragmentIsInForm(raw: string)
    ensures InForm(Fragment(raw))
    ensures Fragment(raw) == StripGenerics(Rooted(Trim(raw)), 0) || Fragment(raw) == Sanitized(raw)
  {
    hide InForm, Sanitized, StripGenerics, Segments, Trim, Rooted;
    var words := SanitizedIsWords(raw);
    WordsAreInForm(words);
    var stripped := StripGenerics(Rooted(Trim(raw)), 0);
    var segs := Segments(stripped);
    if "" !in segs {
      NoneEmpty(segs);
      JoinSegments(stripped);
      StrippedHasNoBrackets(Rooted(Trim(raw)), 0);
      if stripped != "" && !BadFragment(stripped) {
        UnspoiltIsInForm(stripped);
      }
    }
  }

  lemma UnspoiltIsInForm(s: string)
    requires s != "" && !BadFragment(s) && '<' !in s && '>' !in s
    ensures InForm(s)
  {
    ContainsIsInfix(s, "=>");
    assert s[0] == ':' ==> ":" <= s;
    hide Infix, Contains;
  }
}
