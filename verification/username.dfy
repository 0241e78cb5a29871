/**
 The username format check of `UserDatabase.add_user`: the pattern
 `^[a-zA-Z][a-zA-Z0-9_]{4,15}$` applied with Python's `re.match`.

 The pattern is modelled literally, as a sequence of bounded repetitions of
 ASCII character classes anchored at the start (`re.match` and `^`) and
 closed by `$`. Python's `$` (without MULTILINE) matches at the end of the
 string and also just before a single newline that ends it, so the literal
 pattern accepts `s + "\n"` whenever it accepts `s`. Whether a repetition is
 greedy only changes which match is found, not whether one exists, so a
 repetition is modelled as "some count between its bounds".
 */
module Username {

  predicate IsAsciiLetter(c: char) {
    ('a' <= c <= 'z') || ('A' <= c <= 'Z')
  }

  predicate IsAsciiDigit(c: char) {
    '0' <= c <= '9'
  }

  /** Membership in `[a-zA-Z0-9_]`. */
  predicate IsNameChar(c: char) {
    IsAsciiLetter(c) || IsAsciiDigit(c) || c == '_'
  }

  /** The two character classes the pattern uses. */
  datatype CharClass = Letter | NameChar

  predicate InClass(k: CharClass, c: char) {
    match k
    case Letter => IsAsciiLetter(c)
    case NameChar => IsNameChar(c)
  }

  /** A character class repeated between `min` and `max` times: `[...]{min,max}`. */
  datatype Atom = Atom(chars: CharClass, min: nat, max: nat)

  /** `[a-zA-Z][a-zA-Z0-9_]{4,15}` between the anchors `^` and `$`. */
  const UsernamePattern: seq<Atom> := [Atom(Letter, 1, 1), Atom(NameChar, 4, 15)]

  /** Python's `$`: end of the string, or just before a newline that ends it. */
  predicate AtEnd(s: string, i: nat)
    requires i <= |s|
  {
    i == |s| || (i + 1 == |s| && s[i] == '\n')
  }

  predicate AllInClass(k: CharClass, s: string, i: nat, j: nat)
    requires i <= j <= |s|
  {
    forall p :: i <= p < j ==> InClass(k, s[p])
  }

  /** The atoms, then `$`, match `s` starting at position `i`. */
  predicate MatchFrom(atoms: seq<Atom>, s: string, i: nat)
    requires i <= |s|
    decreases |atoms|
  {
    if atoms == [] then AtEnd(s, i)
    else
      exists j :: i + atoms[0].min <= j <= i + atoms[0].max && j <= |s|
        && AllInClass(atoms[0].chars, s, i, j) && MatchFrom(atoms[1..], s, j)
  }

  /** `re.match("^" + atoms + "$", s)` is not None. */
  predicate Matches(atoms: seq<Atom>, s: string) {
    MatchFrom(atoms, s, 0)
  }

  /** The validator of `add_user`, exactly as the regular expression decides. */
  predicate Accepted(s: string) {
    Matches(UsernamePattern, s)
  }

  /**
   The format in plain words: 5 to 16 characters, an ASCII letter first,
   and only ASCII letters, digits and underscores after it.
   */
  predicate PlainFormat(s: string) {
    && 5 <= |s| <= 16
    && IsAsciiLetter(s[0])
    && forall i :: 1 <= i < |s| ==> IsNameChar(s[i])
  }

  /** `s` is a well-formed username followed by the one newline `$` tolerates. */
  predicate PlainFormatThenNewline(s: string) {
    |s| > 0 && s[|s| - 1] == '\n' && PlainFormat(s[..|s| - 1])
  }

  /** The regular expression accepts exactly the well-formed names, each with or without one trailing newline. */
  lemma AcceptedIff(s: string)
    ensures Accepted(s) <==> PlainFormat(s) || PlainFormatThenNewline(s)
  {
    var tail := UsernamePattern[1..];
    assert tail == [Atom(NameChar, 4, 15)];
    assert tail[1..] == [];
    if Accepted(s) {
      var j1 :| 0 + 1 <= j1 <= 0 + 1 && j1 <= |s|
        && AllInClass(Letter, s, 0, j1) && MatchFrom(tail, s, j1);
      assert j1 == 1;
      var j2 :| 1 + 4 <= j2 <= 1 + 15 && j2 <= |s|
        && AllInClass(NameChar, s, 1, j2) && MatchFrom(tail[1..], s, j2);
      assert AtEnd(s, j2);
      if j2 == |s| {
        assert PlainFormat(s);
      } else {
        var t := s[..|s| - 1];
        assert forall i :: 1 <= i < |t| ==> t[i] == s[i];
        assert PlainFormat(t);
      }
    }
    if PlainFormat(s) {
      assert AtEnd(s, |s|);
      assert AllInClass(NameChar, s, 1, |s|);
      assert MatchFrom(tail[1..], s, |s|);
      assert MatchFrom(tail, s, 1);
      assert AllInClass(Letter, s, 0, 1);
      assert MatchFrom(UsernamePattern, s, 0);
    }
    if PlainFormatThenNewline(s) {
      var n := |s| - 1;
      var t := s[..n];
      assert forall i :: 0 <= i < |t| ==> t[i] == s[i];
      assert AtEnd(s, n);
      assert AllInClass(NameChar, s, 1, n);
      assert MatchFrom(tail[1..], s, n);
      assert MatchFrom(tail, s, 1);
      assert AllInClass(Letter, s, 0, 1);
      assert MatchFrom(UsernamePattern, s, 0);
    }
  }

  /**
   On what `input()` can return (it strips the line terminator), the
   regular expression and the plain-words format agree.
   */
  lemma AcceptedIffPlainFormat(s: string)
    requires forall i :: 0 <= i < |s| ==> s[i] != '\n'
    ensures Accepted(s) <==> PlainFormat(s)
  {
    AcceptedIff(s);
  }

  /** The `$` quirk: a trailing newline never turns an accepted name into a rejected one. */
  lemma NewlineTolerated(s: string)
    requires PlainFormat(s)
    ensures Accepted(s) && Accepted(s + "\n")
  {
    var s' := s + "\n";
    assert s'[..|s'| - 1] == s;
    AcceptedIff(s);
    AcceptedIff(s');
  }
}
