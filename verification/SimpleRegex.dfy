/** googletest's simple regular expressions: the validator and the backtracking matcher. */
module SimpleRegex {

  // ----- Characters -----

  // The classes, by ASCII code.

  ghost predicate Digit(ch: char) {
    48 <= ch as int <= 57
  }

  ghost predicate Letter(ch: char) {
    65 <= ch as int <= 90 || 97 <= ch as int <= 122
  }

  ghost predicate Word(ch: char) {
    Letter(ch) || Digit(ch) || ch as int == 95
  }

  /** Tab, newline, vertical tab, form feed, carriage return and blank. */
  ghost predicate Space(ch: char) {
    9 <= ch as int <= 13 || ch as int == 32
  }

  /** The other printing characters. */
  ghost predicate Punctuation(ch: char) {
    33 <= ch as int <= 126 && !Digit(ch) && !Letter(ch)
  }

  /** What an atom without its repetition stands for: a class of characters, all characters but the
      newline, or itself only. A backslash before any other character stands for nothing. */
  ghost predicate Stands(escaped: bool, c: char, ch: char) {
    if !escaped then (if c == '.' then ch as int != 10 else ch == c)
    else
      match c
      case 'd' => Digit(ch)
      case 'D' => !Digit(ch)
      case 's' => Space(ch)
      case 'S' => !Space(ch)
      case 'w' => Word(ch)
      case 'W' => !Word(ch)
      case 't' => ch as int == 9
      case 'n' => ch as int == 10
      case 'v' => ch as int == 11
      case 'f' => ch as int == 12
      case 'r' => ch as int == 13
      case _ => Punctuation(c) && ch == c
  }

  // The code's own tests.

  predicate IsInSet(ch: char, str: string) {
    ch != '\0' && ch in str
  }

  predicate IsAsciiDigit(ch: char) {
    '0' <= ch <= '9'
  }

  predicate IsAsciiPunct(ch: char) {
    IsInSet(ch, "^-!\"#$%&'()*+,./:;<=>?@[\\]_`{|}~")
  }

  predicate IsRepeat(ch: char) {
    IsInSet(ch, "?*+")
  }

  predicate IsAsciiWhiteSpace(ch: char) {
    IsInSet(ch, " \U{000C}\n\r\t\U{000B}")
  }

  predicate IsAsciiWordChar(ch: char) {
    'a' <= ch <= 'z' || 'A' <= ch <= 'Z' || '0' <= ch <= '9' || ch == '_'
  }

  predicate IsValidEscape(c: char) {
    IsAsciiPunct(c) || IsInSet(c, "dDfnrsStvwW")
  }

  predicate AtomMatchesChar(escaped: bool, patternChar: char, ch: char) {
    if escaped then
      match patternChar
      case 'd' => IsAsciiDigit(ch)
      case 'D' => !IsAsciiDigit(ch)
      case 'f' => ch == '\U{000C}'
      case 'n' => ch == '\n'
      case 'r' => ch == '\r'
      case 's' => IsAsciiWhiteSpace(ch)
      case 'S' => !IsAsciiWhiteSpace(ch)
      case 't' => ch == '\t'
      case 'v' => ch == '\U{000B}'
      case 'w' => IsAsciiWordChar(ch)
      case 'W' => !IsAsciiWordChar(ch)
      case _ => IsAsciiPunct(patternChar) && patternChar == ch
    else (patternChar == '.' && ch != '\n') || patternChar == ch
  }

  lemma InPunctSet(ch: char)
    requires IsAsciiPunct(ch)
    ensures Punctuation(ch)
  {
    var s := "^-!\"#$%&'()*+,./:;<=>?@[\\]_`{|}~";
    var k :| 0 <= k < |s| && s[k] == ch;
  }

  lemma PunctuationInSet(ch: char)
    requires Punctuation(ch)
    ensures IsAsciiPunct(ch)
  {
    var s, k := "^-!\"#$%&'()*+,./:;<=>?@[\\]_`{|}~", ch as int;
    assert ch == s[if k == 94 then 0 else if k == 45 then 1
                   else if k <= 44 then k - 31 else if k <= 47 then k - 32 else if k <= 64 then k - 42
                   else if k <= 93 then k - 68 else if k <= 96 then k - 69 else k - 95];
  }

  lemma WhiteSpaceIsSpace(ch: char)
    ensures IsAsciiWhiteSpace(ch) <==> Space(ch)
  {
    var s := " \U{000C}\n\r\t\U{000B}";
    if IsAsciiWhiteSpace(ch) {
      var k :| 0 <= k < |s| && s[k] == ch;
    }
    if Space(ch) {
      assert ch == s[match ch as int case 9 => 4 case 10 => 2 case 11 => 5 case 12 => 1 case 13 => 3 case _ => 0];
    }
  }

  /** The code's test is membership in the class that the atom stands for. */
  lemma AtomMatchesCharIffStands(escaped: bool, c: char, ch: char)
    ensures AtomMatchesChar(escaped, c, ch) <==> Stands(escaped, c, ch)
  {
    WhiteSpaceIsSpace(ch);
    if IsAsciiPunct(c) {
      InPunctSet(c);
    }
    if Punctuation(c) {
      PunctuationInSet(c);
    }
  }

  /** A C string: possibly null, otherwise characters none of which is NUL. */
  datatype CString = Null | Str(chars: string)

  ghost predicate NoNul(s: string) {
    '\0' !in s
  }

  /** The character at an offset, which is the terminator at the end. */
  function CharAt(s: string, i: nat): char
    requires i <= |s|
  {
    if i < |s| then s[i] else '\0'
  }

  // ----- Syntax -----

  datatype Repeat = Once | Optional | Star | Plus {
    function Text(): string {
      match this
      case Once => ""
      case Optional => "?"
      case Star => "*"
      case Plus => "+"
    }

    ghost predicate Allows(n: nat) {
      match this
      case Once => n == 1
      case Optional => n <= 1
      case Star => true
      case Plus => n >= 1
    }
  }

  datatype Atom = Atom(escaped: bool, c: char, repeat: Repeat) {
    ghost predicate WellFormed() {
      if escaped then IsValidEscape(c)
      else c != '\0' && c != '\\' && !IsInSet(c, "^$?*+()[]{}|")
    }

    ghost function Text(): string {
      (if escaped then "\\" else "") + [c] + repeat.Text()
    }
  }

  datatype Regex = Regex(startAnchor: bool, atoms: seq<Atom>, endAnchor: bool) {
    ghost predicate WellFormed() {
      AllWellFormed(atoms)
    }

    ghost function Text(): string {
      (if startAnchor then "^" else "") + TailText(atoms, endAnchor)
    }
  }

  ghost predicate AllWellFormed(atoms: seq<Atom>) {
    forall a :: a in atoms ==> a.WellFormed()
  }

  ghost function TailText(atoms: seq<Atom>, endAnchor: bool): string {
    if atoms == [] then (if endAnchor then "$" else "")
    else atoms[0].Text() + TailText(atoms[1..], endAnchor)
  }

  ghost predicate Denotes(regex: string, r: Regex) {
    r.WellFormed() && r.Text() == regex
  }

  // ----- Validation -----

  /** What remains to be scanned is acceptable; repeatable says whether a repetition may come first
      and first whether nothing has been scanned yet. */
  ghost predicate Acceptable(s: string, repeatable: bool, first: bool) {
    if s == [] then true
    else if s[0] == '\\' then |s| > 1 && IsValidEscape(s[1]) && Acceptable(s[2..], true, false)
    else if s[0] == '^' then first && Acceptable(s[1..], false, false)
    else if s[0] == '$' then |s| == 1
    else if IsInSet(s[0], "()[]{}|") then false
    else if IsRepeat(s[0]) then repeatable && Acceptable(s[1..], false, false)
    else s[0] != '\0' && Acceptable(s[1..], true, false)
  }

  lemma PrependAtom(a: Atom, rest: seq<Atom>, endAnchor: bool)
    requires a.WellFormed() && AllWellFormed(rest)
    ensures AllWellFormed([a] + rest)
    ensures TailText([a] + rest, endAnchor)
            == (if a.escaped then "\\" else "") + [a.c] + (a.repeat.Text() + TailText(rest, endAnchor))
  {
    assert ([a] + rest)[1..] == rest;
  }

  /** Taking the first atom off an acceptable text. */
  lemma TakeAtom(s: string, repeatable: bool) returns (escaped: bool, c: char, after: string)
    requires Acceptable(s, repeatable, false) && s != [] && s[0] != '$' && !IsRepeat(s[0])
    ensures s == (if escaped then "\\" else "") + [c] + after && Acceptable(after, true, false)
    ensures Atom(escaped, c, Once).WellFormed()
  {
    escaped := s[0] == '\\';
    var at := if escaped then 1 else 0;
    c, after := s[at], s[at + 1..];
  }

  lemma TakeRepeat(s: string, repeatable: bool) returns (repeat: Repeat)
    requires Acceptable(s, repeatable, false) && s != [] && IsRepeat(s[0])
    ensures repeatable && s == repeat.Text() + s[1..] && Acceptable(s[1..], false, false)
  {
    repeat := if s[0] == '?' then Optional else if s[0] == '*' then Star else Plus;
  }

  /** An acceptable rest is an optional repetition, some atoms and an optional end anchor. */
  lemma {:induction false} ParseTail(s: string, repeatable: bool)
    returns (repeat: Repeat, atoms: seq<Atom>, endAnchor: bool)
    requires Acceptable(s, repeatable, false)
    ensures AllWellFormed(atoms) && s == repeat.Text() + TailText(atoms, endAnchor)
    ensures repeat != Once ==> repeatable
    decreases |s|
  {
    if s == [] || s[0] == '$' {
      repeat, atoms, endAnchor := Once, [], s != [];
    } else if IsRepeat(s[0]) {
      repeat := TakeRepeat(s, repeatable);
      var none;
      none, atoms, endAnchor := ParseTail(s[1..], false);
    } else {
      var escaped, c, after := TakeAtom(s, repeatable);
      var r, rest;
      r, rest, endAnchor := ParseTail(after, true);
      PrependAtom(Atom(escaped, c, r), rest, endAnchor);
      repeat, atoms := Once, [Atom(escaped, c, r)] + rest;
    }
  }

  lemma AtomAcceptable(a: Atom, after: string, repeatable: bool)
    requires a.WellFormed() && Acceptable(after, true, false)
    ensures Acceptable((if a.escaped then "\\" else "") + [a.c] + after, repeatable, false)
  {
    var s := (if a.escaped then "\\" else "") + [a.c] + after;
    if a.escaped {
      assert s[0] == '\\' && s[1] == a.c && s[2..] == after;
    } else {
      assert s[0] == a.c && s[1..] == after;
    }
  }

  lemma RepeatAcceptable(repeat: Repeat, tail: string)
    requires repeat != Once && Acceptable(tail, false, false)
    ensures Acceptable(repeat.Text() + tail, true, false)
  {
    assert (repeat.Text() + tail)[1..] == tail;
  }

  lemma {:induction false} TailAcceptable(repeat: Repeat, atoms: seq<Atom>, endAnchor: bool, repeatable: bool)
    requires AllWellFormed(atoms) && (repeat != Once ==> repeatable)
    ensures Acceptable(repeat.Text() + TailText(atoms, endAnchor), repeatable, false)
    decreases |atoms|, repeat != Once
  {
    var tail := TailText(atoms, endAnchor);
    if repeat != Once {
      TailAcceptable(Once, atoms, endAnchor, false);
      assert Once.Text() + tail == tail;
      RepeatAcceptable(repeat, tail);
    } else if atoms != [] {
      var a := atoms[0];
      assert a.WellFormed();
      TailAcceptable(a.repeat, atoms[1..], endAnchor, true);
      AtomAcceptable(a, a.repeat.Text() + TailText(atoms[1..], endAnchor), repeatable);
      PrependAtom(a, atoms[1..], endAnchor);
      assert Once.Text() + tail == tail && [a] + atoms[1..] == atoms;
    }
  }

  lemma TakeStart(regex: string) returns (start: bool, body: string)
    requires Acceptable(regex, false, true)
    ensures regex == (if start then "^" else "") + body && Acceptable(body, false, false)
  {
    start := regex != [] && regex[0] == '^';
    body := if start then regex[1..] else regex;
  }

  lemma BodyDenotes(regex: string, start: bool, body: string) returns (r: Regex)
    requires regex == (if start then "^" else "") + body && Acceptable(body, false, false)
    ensures Denotes(regex, r)
  {
    var repeat, atoms, endAnchor := ParseTail(body, false);
    assert body == TailText(atoms, endAnchor);
    r := Regex(start, atoms, endAnchor);
  }

  lemma AcceptableDenotes(regex: string) returns (r: Regex)
    requires Acceptable(regex, false, true)
    ensures Denotes(regex, r)
  {
    var start, body := TakeStart(regex);
    r := BodyDenotes(regex, start, body);
  }

  lemma DenotesAcceptable(regex: string, r: Regex)
    requires Denotes(regex, r)
    ensures Acceptable(regex, false, true)
  {
    var tail := TailText(r.atoms, r.endAnchor);
    TailAcceptable(Once, r.atoms, r.endAnchor, false);
    assert Once.Text() + tail == tail;
    if r.startAnchor {
      assert regex[0] == '^' && regex[1..] == tail;
    } else {
      assert regex == tail;
      AcceptableStart(regex);
    }
  }

  /** The scanner accepts exactly the texts of well-formed regular expressions. */
  lemma AcceptableIffDenotes(regex: string)
    ensures Acceptable(regex, false, true) <==> exists r :: Denotes(regex, r)
  {
    if Acceptable(regex, false, true) {
      var r := AcceptableDenotes(regex);
    }
    if r :| Denotes(regex, r) {
      DenotesAcceptable(regex, r);
    }
  }

  lemma AcceptableStart(s: string)
    requires Acceptable(s, false, false)
    ensures Acceptable(s, false, true)
  {
  }

  // One round of the validator's loop, at an escape and at any other character.

  lemma ScanEscape(regex: string, i: nat, repeatable: bool)
    requires i < |regex| && regex[i] == '\\'
    ensures Acceptable(regex[i..], repeatable, i == 0) <==>
              i + 1 < |regex| && IsValidEscape(regex[i + 1]) && Acceptable(regex[i + 2..], true, false)
  {
    if i + 1 < |regex| {
      assert regex[i..][2..] == regex[i + 2..];
    }
  }

  lemma ScanChar(regex: string, i: nat, repeatable: bool)
    requires NoNul(regex) && i < |regex| && regex[i] != '\\'
    ensures Acceptable(regex[i..], repeatable, i == 0) <==>
              && !(regex[i] == '^' && i > 0) && !(regex[i] == '$' && i + 1 < |regex|)
              && !IsInSet(regex[i], "()[]{}|") && !(IsRepeat(regex[i]) && !repeatable)
              && Acceptable(regex[i + 1..], !IsInSet(regex[i], "^$?*+"), false)
  {
    assert regex[i] in regex;
    assert regex[i..][1..] == regex[i + 1..];
  }

  lemma CharAtNul(s: string, i: nat)
    requires NoNul(s) && i <= |s|
    ensures CharAt(s, i) == '\0' <==> i == |s|
  {
    assert i < |s| ==> s[i] in s;
  }

  method ValidateRegex(input: CString) returns (isValid: bool)
    requires input.Str? ==> NoNul(input.chars)
    ensures isValid <==> input.Str? && exists r :: Denotes(input.chars, r)
  {
    if input.Null? {
      return false;
    }
    isValid := Scan(input.chars);
    AcceptableIffDenotes(input.chars);
  }

  /** The loop of ValidateRegex. */
  method Scan(regex: string) returns (isValid: bool)
    requires NoNul(regex)
    ensures isValid <==> Acceptable(regex, false, true)
  {
    isValid := true;
    var prevRepeatable := false;
    var i: nat := 0;
    assert regex[0..] == regex;
    CharAtNul(regex, 0);
    while CharAt(regex, i) != '\0'
      invariant i <= |regex| && (CharAt(regex, i) == '\0' <==> i == |regex|)
      invariant Acceptable(regex, false, true) <==> isValid && Acceptable(regex[i..], prevRepeatable, i == 0)
      decreases |regex| - i
    {
      CharAtNul(regex, i + 1);
      if regex[i] == '\\' {
        ScanEscape(regex, i, prevRepeatable);
        i := i + 1;
        if CharAt(regex, i) == '\0' {
          return false;
        }
        if !IsValidEscape(regex[i]) {
          isValid := false;
        }
        prevRepeatable := true;
      } else {
        ScanChar(regex, i, prevRepeatable);
        var ch := regex[i];
        if ch == '^' && i > 0 {
          isValid := false;
        } else if ch == '$' && CharAt(regex, i + 1) != '\0' {
          isValid := false;
        } else if IsInSet(ch, "()[]{}|") {
          isValid := false;
        } else if IsRepeat(ch) && !prevRepeatable {
          isValid := false;
        }
        prevRepeatable := !IsInSet(ch, "^$?*+");
      }
      i := i + 1;
      CharAtNul(regex, i);
    }
  }

  // ----- Meaning -----

  ghost predicate AllMatch(a: Atom, w: string) {
    forall i :: 0 <= i < |w| ==> Stands(a.escaped, a.c, w[i])
  }

  /** The strings an atom with its repetition stands for. */
  ghost predicate AtomMatches(a: Atom, w: string) {
    a.repeat.Allows(|w|) && AllMatch(a, w)
  }

  ghost predicate AtomsMatch(atoms: seq<Atom>, w: string) {
    if atoms == [] then w == []
    else exists k :: 0 <= k <= |w| && AtomMatches(atoms[0], w[..k]) && AtomsMatch(atoms[1..], w[k..])
  }

  /** Some substring of str is in the language, at the start or at the end where anchored. */
  ghost predicate Found(r: Regex, str: string) {
    exists i, j :: && 0 <= i <= j <= |str| && AtomsMatch(r.atoms, str[i..j])
                   && (r.startAnchor ==> i == 0) && (r.endAnchor ==> j == |str|)
  }

  /** Some prefix of str matches, all of it when anchored at the end. */
  ghost predicate PrefixMatches(atoms: seq<Atom>, endAnchor: bool, str: string) {
    exists j :: 0 <= j <= |str| && AtomsMatch(atoms, str[..j]) && (endAnchor ==> j == |str|)
  }

  /** The atom takes the first k characters and the others go on from there. */
  ghost predicate SplitsAt(a: Atom, rest: seq<Atom>, endAnchor: bool, str: string, k: nat) {
    k <= |str| && AtomMatches(a, str[..k]) && PrefixMatches(rest, endAnchor, str[k..])
  }

  /** Matching a list of atoms is matching the first one and then the others. */
  lemma PrefixMatchesHead(a: Atom, rest: seq<Atom>, endAnchor: bool, str: string)
    ensures PrefixMatches([a] + rest, endAnchor, str) <==> exists k :: SplitsAt(a, rest, endAnchor, str, k)
  {
    var atoms := [a] + rest;
    assert atoms[1..] == rest;
    if PrefixMatches(atoms, endAnchor, str) {
      var j :| 0 <= j <= |str| && AtomsMatch(atoms, str[..j]) && (endAnchor ==> j == |str|);
      var k :| 0 <= k <= |str[..j]| && AtomMatches(a, str[..j][..k]) && AtomsMatch(rest, str[..j][k..]);
      assert str[..j][..k] == str[..k] && str[..j][k..] == str[k..][..j - k];
      assert SplitsAt(a, rest, endAnchor, str, k);
    }
    if k: nat :| SplitsAt(a, rest, endAnchor, str, k) {
      var j :| 0 <= j <= |str[k..]| && AtomsMatch(rest, str[k..][..j]) && (endAnchor ==> j == |str[k..]|);
      assert str[..k + j][..k] == str[..k] && str[..k + j][k..] == str[k..][..j];
      assert AtomsMatch(atoms, str[..k + j]);
    }
  }

  lemma PrefixMatchesNone(endAnchor: bool, str: string)
    ensures PrefixMatches([], endAnchor, str) <==> (endAnchor ==> str == [])
  {
    assert str[..0] == [];
  }

  lemma PrefixMatchesOnce(a: Atom, rest: seq<Atom>, endAnchor: bool, str: string)
    requires a.repeat == Once
    ensures PrefixMatches([a] + rest, endAnchor, str) <==>
            str != [] && Stands(a.escaped, a.c, str[0]) && PrefixMatches(rest, endAnchor, str[1..])
  {
    PrefixMatchesHead(a, rest, endAnchor, str);
    if str != [] {
      assert AtomMatches(a, str[..1]) <==> Stands(a.escaped, a.c, str[..1][0]);
      assert PrefixMatches([a] + rest, endAnchor, str) <==> SplitsAt(a, rest, endAnchor, str, 1);
    }
  }

  /** The first n characters all match the atom. */
  ghost predicate RunsTo(a: Atom, str: string, n: nat)
    requires n <= |str|
  {
    forall i :: 0 <= i < n ==> Stands(a.escaped, a.c, str[i])
  }

  lemma SplitAfterRun(a: Atom, rest: seq<Atom>, endAnchor: bool, str: string, n: nat)
    requires n <= |str| && RunsTo(a, str, n)
    ensures SplitsAt(a, rest, endAnchor, str, n) <==> a.repeat.Allows(n) && PrefixMatches(rest, endAnchor, str[n..])
  {
  }

  lemma NoSplitBeyond(a: Atom, rest: seq<Atom>, endAnchor: bool, str: string, n: nat)
    requires n < |str| ==> !Stands(a.escaped, a.c, str[n])
    ensures forall k :: k > n ==> !SplitsAt(a, rest, endAnchor, str, k)
  {
    forall k: nat | n < k <= |str| ensures !AllMatch(a, str[..k]) {
      assert str[..k][n] == str[n];
    }
  }

  lemma FoundIffPrefixMatches(r: Regex, str: string)
    ensures Found(r, str) <==>
            exists i :: 0 <= i <= |str| && (r.startAnchor ==> i == 0) && PrefixMatches(r.atoms, r.endAnchor, str[i..])
  {
    if Found(r, str) {
      var i, j :| 0 <= i <= j <= |str| && AtomsMatch(r.atoms, str[i..j])
                  && (r.startAnchor ==> i == 0) && (r.endAnchor ==> j == |str|);
      assert str[i..][..j - i] == str[i..j];
    }
    if i :| 0 <= i <= |str| && (r.startAnchor ==> i == 0) && PrefixMatches(r.atoms, r.endAnchor, str[i..]) {
      var j :| 0 <= j <= |str[i..]| && AtomsMatch(r.atoms, str[i..][..j]) && (r.endAnchor ==> j == |str[i..]|);
      assert str[i..][..j] == str[i..i + j];
    }
  }

  /** The text of some atoms begins with the first atom, and what follows an atom that is not
      repeated does not look like a repetition. */
  lemma TailTextHead(atoms: seq<Atom>, endAnchor: bool)
    requires AllWellFormed(atoms) && atoms != []
    ensures var text, a := TailText(atoms, endAnchor), atoms[0];
            var at := if a.escaped then 1 else 0;
            && at < |text| && text[at] == a.c && (a.escaped <==> text[0] == '\\') && text[0] != '$' && text[0] != '^'
            && (a.repeat == Once ==>
                  !IsRepeat(CharAt(text, at + 1)) && text[at + 1..] == TailText(atoms[1..], endAnchor))
            && (a.repeat != Once ==>
                  && at + 1 < |text| && IsRepeat(text[at + 1]) && [text[at + 1]] == a.repeat.Text()
                  && text[at + 2..] == TailText(atoms[1..], endAnchor))
  {
    var a, rest := atoms[0], TailText(atoms[1..], endAnchor);
    assert a in atoms;
    if atoms[1..] != [] {
      assert atoms[1] in atoms;
      assert rest[0] == if atoms[1].escaped then '\\' else atoms[1].c;
    }
  }

  /** The grammar is unambiguous. */
  lemma {:induction false} TailTextInjective(a: seq<Atom>, b: seq<Atom>, endA: bool, endB: bool)
    requires AllWellFormed(a) && AllWellFormed(b) && TailText(a, endA) == TailText(b, endB)
    ensures a == b && endA == endB
  {
    if a != [] {
      TailTextHead(a, endA);
    }
    if b != [] {
      TailTextHead(b, endB);
    }
    if a != [] && b != [] {
      assert a[0] == b[0];
      TailTextInjective(a[1..], b[1..], endA, endB);
      assert a == [a[0]] + a[1..] && b == [b[0]] + b[1..];
    }
  }

  lemma DenotesUnique(regex: string, r: Regex, s: Regex)
    requires Denotes(regex, r) && Denotes(regex, s)
    ensures r == s
  {
    if r.atoms != [] {
      TailTextHead(r.atoms, r.endAnchor);
    }
    if s.atoms != [] {
      TailTextHead(s.atoms, s.endAnchor);
    }
    assert r.startAnchor <==> regex != [] && regex[0] == '^';
    assert s.startAnchor <==> regex != [] && regex[0] == '^';
    assert TailText(r.atoms, r.endAnchor) == regex[if r.startAnchor then 1 else 0..];
    assert TailText(s.atoms, s.endAnchor) == regex[if s.startAnchor then 1 else 0..];
    TailTextInjective(r.atoms, s.atoms, r.endAnchor, s.endAnchor);
  }

  // ----- Matching -----

  const SIZE_MAX := 0xFFFF_FFFF_FFFF_FFFF

  method MatchRepetitionAndRegexAtHead(escaped: bool, c: char, repeat: char, regex: string, str: string,
                                       ghost a: Atom, ghost rest: seq<Atom>, ghost endAnchor: bool)
    returns (matched: bool)
    requires a.escaped == escaped && a.c == c && a.repeat.Text() == [repeat] && IsRepeat(repeat)
    requires AllWellFormed(rest) && regex == TailText(rest, endAnchor)
    requires NoNul(str) && |str| < SIZE_MAX
    ensures matched <==> PrefixMatches([a] + rest, endAnchor, str)
    decreases |regex|, 2
  {
    PrefixMatchesHead(a, rest, endAnchor, str);
    var minCount := if repeat == '+' then 1 else 0;
    var maxCount := if repeat == '?' then 1 else SIZE_MAX - 1;
    assert forall n: nat :: n <= |str| ==> (a.repeat.Allows(n) <==> minCount <= n <= maxCount);
    var i: nat := 0;
    while i <= maxCount
      invariant i <= |str| && RunsTo(a, str, i)
      invariant forall k :: 0 <= k < i ==> !SplitsAt(a, rest, endAnchor, str, k)
      decreases maxCount - i
    {
      SplitAfterRun(a, rest, endAnchor, str, i);
      if i >= minCount {
        var tail := MatchRegexAtHead(regex, str[i..], rest, endAnchor);
        if tail {
          return true;
        }
      }
      CharAtNul(str, i);
      if i < |str| {
        AtomMatchesCharIffStands(escaped, c, str[i]);
      }
      if CharAt(str, i) == '\0' || !AtomMatchesChar(escaped, c, str[i]) {
        NoSplitBeyond(a, rest, endAnchor, str, i);
        return false;
      }
      i := i + 1;
    }
    return false;
  }

  method MatchRegexAtHead(regex: string, str: string, ghost atoms: seq<Atom>, ghost endAnchor: bool)
    returns (matched: bool)
    requires AllWellFormed(atoms) && regex == TailText(atoms, endAnchor)
    requires NoNul(str) && |str| < SIZE_MAX
    ensures matched <==> PrefixMatches(atoms, endAnchor, str)
    decreases |regex|, 1
  {
    if atoms == [] {
      PrefixMatchesNone(endAnchor, str);
    } else {
      TailTextHead(atoms, endAnchor);
      assert atoms == [atoms[0]] + atoms[1..] && atoms[0] in atoms;
    }
    assert str != [] ==> str[0] in str;
    if CharAt(regex, 0) == '\0' {
      return true;
    }
    if regex[0] == '$' {
      return CharAt(str, 0) == '\0';
    }
    ghost var a, rest := atoms[0], atoms[1..];
    var escaped := regex[0] == '\\';
    var at := if escaped then 1 else 0;
    if IsRepeat(CharAt(regex, at + 1)) {
      matched := MatchRepetitionAndRegexAtHead(escaped, regex[at], regex[at + 1], regex[at + 2..], str, a, rest,
                                               endAnchor);
    } else {
      PrefixMatchesOnce(a, rest, endAnchor, str);
      if str != [] {
        AtomMatchesCharIffStands(escaped, regex[at], str[0]);
      }
      matched := CharAt(str, 0) != '\0' && AtomMatchesChar(escaped, regex[at], str[0]);
      if matched {
        matched := MatchRegexAtHead(regex[at + 1..], str[1..], rest, endAnchor);
      }
    }
  }

  method MatchRegexAnywhere(pattern: CString, text: CString) returns (matched: bool)
    requires pattern.Str? ==> exists r :: Denotes(pattern.chars, r)
    requires text.Str? ==> NoNul(text.chars) && |text.chars| < SIZE_MAX
    ensures pattern.Null? || text.Null? ==> !matched
    ensures pattern.Str? && text.Str? ==>
              forall r :: Denotes(pattern.chars, r) ==> (matched <==> Found(r, text.chars))
  {
    if pattern.Null? || text.Null? {
      return false;
    }
    ghost var r :| Denotes(pattern.chars, r);
    matched := MatchSomewhere(pattern.chars, text.chars, r);
    forall s | Denotes(pattern.chars, s)
      ensures matched <==> Found(s, text.chars)
    {
      DenotesUnique(pattern.chars, r, s);
    }
  }

  /** The body of MatchRegexAnywhere once neither pointer is null. */
  method MatchSomewhere(regex: string, str: string, ghost r: Regex) returns (matched: bool)
    requires Denotes(regex, r)
    requires NoNul(str) && |str| < SIZE_MAX
    ensures matched <==> Found(r, str)
  {
    FoundIffPrefixMatches(r, str);
    StartOfText(regex, r);
    assert str[0..] == str;
    if CharAt(regex, 0) == '^' {
      matched := MatchRegexAtHead(regex[1..], str, r.atoms, r.endAnchor);
      return;
    }
    matched := MatchAtSomeStart(regex, str, r.atoms, r.endAnchor);
  }

  /** The text begins with '^' exactly for a start anchor; what follows are the atoms. */
  lemma StartOfText(regex: string, r: Regex)
    requires Denotes(regex, r)
    ensures r.startAnchor <==> CharAt(regex, 0) == '^'
    ensures TailText(r.atoms, r.endAnchor) == if r.startAnchor then regex[1..] else regex
  {
    if r.atoms != [] {
      TailTextHead(r.atoms, r.endAnchor);
    }
  }

  /** Without a start anchor every suffix of the text is tried. */
  method MatchAtSomeStart(regex: string, str: string, ghost atoms: seq<Atom>, ghost endAnchor: bool)
    returns (matched: bool)
    requires AllWellFormed(atoms) && regex == TailText(atoms, endAnchor)
    requires NoNul(str) && |str| < SIZE_MAX
    ensures matched <==> exists i :: 0 <= i <= |str| && PrefixMatches(atoms, endAnchor, str[i..])
  {
    var i: nat := 0;
    while true
      invariant i <= |str| && forall k :: 0 <= k < i ==> !PrefixMatches(atoms, endAnchor, str[k..])
      decreases |str| - i
    {
      matched := MatchRegexAtHead(regex, str[i..], atoms, endAnchor);
      if matched {
        return true;
      }
      CharAtNul(str, i);
      if CharAt(str, i) == '\0' {
        return false;
      }
      i := i + 1;
    }
  }

  // ----- Matching the whole string -----

  /** The pattern RE::Init builds for a full match: anchored on both sides, unless the text already
      begins with '^' or ends with '$'. */
  function FullPattern(pattern: string): string {
    (if pattern == "" || pattern[0] != '^' then "^" else "") + pattern
    + (if pattern == "" || pattern[|pattern| - 1] != '$' then "$" else "")
  }

  /** The last atom is an escaped dollar, which FullPattern takes for the end anchor. */
  ghost predicate EndsInEscapedDollar(r: Regex) {
    !r.endAnchor && r.atoms != [] && r.atoms[|r.atoms| - 1] == Atom(true, '$', Once)
  }

  lemma {:induction false} TailTextEnd(atoms: seq<Atom>)
    requires AllWellFormed(atoms)
    ensures TailText(atoms, true) == TailText(atoms, false) + "$"
    ensures atoms == [] <==> TailText(atoms, false) == ""
    ensures atoms != [] ==>
              var text := TailText(atoms, false);
              (text[|text| - 1] == '$' <==> atoms[|atoms| - 1] == Atom(true, '$', Once))
  {
    if atoms != [] {
      var a, rest := atoms[0], atoms[1..];
      assert a in atoms;
      TailTextEnd(rest);
      assert a.Text() + TailText(rest, false) + "$" == a.Text() + (TailText(rest, false) + "$");
      if rest == [] {
        assert a.Text() + "" == a.Text();
      }
    }
  }

  lemma PatternStart(pattern: string, r: Regex)
    requires Denotes(pattern, r)
    ensures (if pattern == "" || pattern[0] != '^' then "^" else "") + pattern == "^" + TailText(r.atoms, r.endAnchor)
  {
    if r.atoms != [] {
      TailTextHead(r.atoms, r.endAnchor);
    }
  }

  lemma PatternEnd(pattern: string, r: Regex)
    requires Denotes(pattern, r)
    ensures TailText(r.atoms, r.endAnchor) + (if pattern == "" || pattern[|pattern| - 1] != '$' then "$" else "")
            == TailText(r.atoms, !EndsInEscapedDollar(r))
  {
    TailTextEnd(r.atoms);
    var tail := TailText(r.atoms, r.endAnchor);
    assert tail != "" ==> pattern[|pattern| - 1] == tail[|tail| - 1];
  }

  lemma AnchoredText(start: string, tail: string, end: string)
    ensures start + tail + end == start + (tail + end)
  {
  }

  /** What the full pattern denotes. */
  lemma FullPatternDenotes(pattern: string, r: Regex)
    requires Denotes(pattern, r)
    ensures Denotes(FullPattern(pattern), Regex(true, r.atoms, !EndsInEscapedDollar(r)))
  {
    PatternStart(pattern, r);
    PatternEnd(pattern, r);
    AnchoredText("^", TailText(r.atoms, r.endAnchor),
                 if pattern == "" || pattern[|pattern| - 1] != '$' then "$" else "");
  }

  /** Some character an atom matches. */
  ghost function Sample(a: Atom): char {
    if a.escaped then
      match a.c
      case 'd' => '0'
      case 'D' => 'a'
      case 'f' => '\U{000C}'
      case 'n' => '\n'
      case 'r' => '\r'
      case 's' => ' '
      case 'S' => 'a'
      case 't' => '\t'
      case 'v' => '\U{000B}'
      case 'w' => 'a'
      case 'W' => ' '
      case _ => a.c
    else a.c
  }

  /** Every list of atoms matches something. */
  lemma {:induction false} LanguageNonEmpty(atoms: seq<Atom>) returns (w: string)
    requires AllWellFormed(atoms)
    ensures AtomsMatch(atoms, w) && NoNul(w)
  {
    if atoms == [] {
      w := "";
    } else {
      var a := atoms[0];
      assert a in atoms && a.WellFormed();
      var rest := LanguageNonEmpty(atoms[1..]);
      w := [Sample(a)] + rest;
      SampleMatches(a);
      assert w[..1] == [Sample(a)] && w[1..] == rest;
      assert AtomMatches(a, w[..1]);
    }
  }

  lemma SampleMatches(a: Atom)
    requires a.WellFormed()
    ensures Stands(a.escaped, a.c, Sample(a)) && Sample(a) != '\0'
  {
    if a.escaped && IsAsciiPunct(a.c) {
      InPunctSet(a.c);
    }
  }

  /** A backslash may come before exactly the characters with which it stands for something. */
  lemma ValidEscapeIffStands(c: char)
    ensures IsValidEscape(c) <==> exists ch :: Stands(true, c, ch)
  {
    if IsValidEscape(c) {
      SampleMatches(Atom(true, c, Once));
      assert Stands(true, c, Sample(Atom(true, c, Once)));
    } else if Punctuation(c) {
      PunctuationInSet(c);
    } else {
      var s := "dDfnrsStvwW";
      assert forall k :: 0 <= k < 11 ==> c != s[k];
    }
  }

  lemma {:induction false} LastCharIsDollar(atoms: seq<Atom>, w: string)
    requires atoms != [] && atoms[|atoms| - 1] == Atom(true, '$', Once) && AtomsMatch(atoms, w)
    ensures w != [] && w[|w| - 1] == '$'
  {
    var k :| 0 <= k <= |w| && AtomMatches(atoms[0], w[..k]) && AtomsMatch(atoms[1..], w[k..]);
    if |atoms| == 1 {
      assert w[k..] == "" && w[..k] == w;
      assert w[0] == '$';
    } else {
      LastCharIsDollar(atoms[1..], w[k..]);
    }
  }

  lemma WholeMatch(atoms: seq<Atom>, str: string)
    ensures Found(Regex(true, atoms, true), str) <==> AtomsMatch(atoms, str)
  {
    assert str[0..|str|] == str;
  }

  /** A full match means that the whole string is in the language, exactly for the patterns that do
      not end in an escaped dollar; for those it only means that some prefix is. */
  lemma FullMatchMeansWholeString(r: Regex)
    requires r.WellFormed()
    ensures (forall str | NoNul(str) ::
               Found(Regex(true, r.atoms, !EndsInEscapedDollar(r)), str) <==> AtomsMatch(r.atoms, str))
            <==> !EndsInEscapedDollar(r)
  {
    if EndsInEscapedDollar(r) {
      var w := LanguageNonEmpty(r.atoms);
      var str := w + "a";
      assert str[0..|w|] == w && NoNul(str);
      assert Found(Regex(true, r.atoms, false), str);
      if AtomsMatch(r.atoms, str) {
        LastCharIsDollar(r.atoms, str);
      }
      assert !(Found(Regex(true, r.atoms, !EndsInEscapedDollar(r)), str) <==> AtomsMatch(r.atoms, str));
    } else {
      forall str | NoNul(str)
        ensures Found(Regex(true, r.atoms, true), str) <==> AtomsMatch(r.atoms, str)
      {
        WholeMatch(r.atoms, str);
      }
    }
  }

  /** The shortest such pattern, a backslash and a dollar: "$a" is accepted, though only its first
      character is in the language. */
  lemma EscapedDollarIsNotAnchored(r: Regex)
    requires r == Regex(false, [Atom(true, '$', Once)], false)
    ensures Denotes("\\$", r) && EndsInEscapedDollar(r)
    ensures Found(Regex(true, r.atoms, !EndsInEscapedDollar(r)), "$a") && !AtomsMatch(r.atoms, "$a")
  {
    var str := "$a";
    assert TailText(r.atoms[1..], false) == "";
    assert r.Text() == "\\$";
    assert str[0..1] == "$" && AtomMatches(r.atoms[0], "$"[..1]) && "$"[1..] == "" && AtomsMatch(r.atoms[1..], "");
    assert AtomsMatch(r.atoms, str[0..1]);
    if AtomsMatch(r.atoms, str) {
      LastCharIsDollar(r.atoms, str);
    }
  }

  method FullMatch(str: string, pattern: string, ghost r: Regex) returns (matched: bool)
    requires Denotes(pattern, r)
    requires NoNul(str) && |str| < SIZE_MAX
    ensures !EndsInEscapedDollar(r) ==> (matched <==> AtomsMatch(r.atoms, str))
    ensures EndsInEscapedDollar(r) ==> (matched <==> PrefixMatches(r.atoms, false, str))
  {
    FullPatternDenotes(pattern, r);
    ghost var full := Regex(true, r.atoms, !EndsInEscapedDollar(r));
    matched := MatchRegexAnywhere(Str(FullPattern(pattern)), Str(str));
    WholeMatch(r.atoms, str);
    FoundIffPrefixMatches(full, str);
    assert str[0..] == str;
  }
}
