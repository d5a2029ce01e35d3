/**
 The newsletter form's address check, `validateEmail`: the regular expression
 `^[^\s@]+@[^\s@]+\.[^\s@]+$`, restated over strings.
 */
module EmailValidation {
  import opened Wrappers
  import opened Filtering

  /** JavaScript's `\s`: the ECMAScript white-space and line-terminator characters. */
  predicate IsSpace(c: char) {
    || c == '\t' || c == '\n' || c == '\U{000B}' || c == '\U{000C}' || c == '\r' || c == ' '
    || c == '\U{00A0}' || c == '\U{1680}' || ('\U{2000}' <= c <= '\U{200A}')
    || c == '\U{2028}' || c == '\U{2029}' || c == '\U{202F}' || c == '\U{205F}'
    || c == '\U{3000}' || c == '\U{FEFF}'
  }

  /** The character class `[^\s@]`. */
  predicate IsAtomChar(c: char) {
    !IsSpace(c) && c != '@'
  }

  /** `[^\s@]+`: a non-empty run of atom characters. */
  predicate IsAtom(s: string) {
    |s| > 0 && forall i :: 0 <= i < |s| ==> IsAtomChar(s[i])
  }

  /** What the regular expression accepts: `local @ a . b` with three atoms. */
  ghost predicate MatchesPattern(email: string) {
    exists local: string, a: string, b: string ::
      IsAtom(local) && IsAtom(a) && IsAtom(b) && email == local + "@" + a + "." + b
  }

  /** The first position of `c` in `s`. */
  function IndexOf(s: string, c: char): (r: Option<nat>)
    ensures r.Some? ==> r.value < |s| && s[r.value] == c
    ensures r.Some? ==> forall j :: 0 <= j < r.value ==> s[j] != c
    ensures r.None? ==> forall j :: 0 <= j < |s| ==> s[j] != c
  {
    FirstIndex(s, (x: char) => x == c)
  }

  /** Every character of `s` belongs to `[^\s@]` (the empty string included). */
  predicate AllAtomChars(s: string) {
    forall i :: 0 <= i < |s| ==> IsAtomChar(s[i])
  }

  /** A `.` in `d` that is neither its first nor its last character. */
  predicate HasInnerDot(d: string) {
    exists k :: 1 <= k < |d| - 1 && d[k] == '.'
  }

  /** `validateEmail`: split at the first `@`; the part before must be a non-empty atom,
      the part after must be atom characters with a dot strictly inside. */
  function ValidateEmail(email: string): (ok: bool)
  {
    match IndexOf(email, '@')
    case None => false
    case Some(at) =>
      at > 0 && AllAtomChars(email[..at])
      && AllAtomChars(email[at + 1..]) && HasInnerDot(email[at + 1..])
  }

  /** The split of a pattern match is at the first (and only) `@`. */
  lemma SplitPositions(local: string, a: string, b: string)
    requires IsAtom(local) && IsAtom(a) && IsAtom(b)
    ensures var email := local + "@" + a + "." + b;
      && IndexOf(email, '@') == Some(|local|)
      && email[..|local|] == local
      && email[|local| + 1..] == a + "." + b
  {
    var email := local + "@" + a + "." + b;
    assert email[|local|] == '@';
    assert forall j :: 0 <= j < |local| ==> email[j] == local[j];
    assert email[..|local|] == local;
    assert email[|local| + 1..] == a + "." + b;
  }

  /** Every accepted string has the shape the regular expression describes. */
  lemma ValidateEmailSound(email: string)
    requires ValidateEmail(email)
    ensures MatchesPattern(email)
  {
    var at := IndexOf(email, '@').value;
    var local, d := email[..at], email[at + 1..];
    assert AllAtomChars(local) && AllAtomChars(d);
    var k :| 1 <= k < |d| - 1 && d[k] == '.';
    var a, b := d[..k], d[k + 1..];
    assert IsAtom(local);
    assert IsAtom(a) by {
      forall i | 0 <= i < |a| ensures IsAtomChar(a[i]) {
        assert a[i] == d[i];
      }
    }
    assert IsAtom(b) by {
      forall i | 0 <= i < |b| ensures IsAtomChar(b[i]) {
        assert b[i] == d[k + 1 + i];
      }
    }
    assert d == a + "." + b by {
      assert d == d[..k] + [d[k]] + d[k + 1..];
    }
    assert email == local + "@" + d by {
      assert email == email[..at] + [email[at]] + email[at + 1..];
    }
    assert email == local + "@" + a + "." + b;
  }

  /** Every string of that shape is accepted. */
  lemma ValidateEmailComplete(local: string, a: string, b: string)
    requires IsAtom(local) && IsAtom(a) && IsAtom(b)
    ensures ValidateEmail(local + "@" + a + "." + b)
  {
    SplitPositions(local, a, b);
    var d := a + "." + b;
    assert d[|a|] == '.';
    assert AllAtomChars(d) by {
      forall i | 0 <= i < |d| ensures IsAtomChar(d[i]) {
        if i < |a| { assert d[i] == a[i]; }
        else if i > |a| { assert d[i] == b[i - |a| - 1]; }
      }
    }
  }

  /** The function accepts exactly the strings the regular expression matches. */
  lemma ValidateEmailCorrect(email: string)
    ensures ValidateEmail(email) <==> MatchesPattern(email)
  {
    if ValidateEmail(email) {
      ValidateEmailSound(email);
    }
    if MatchesPattern(email) {
      var local: string, a: string, b: string :|
        IsAtom(local) && IsAtom(a) && IsAtom(b) && email == local + "@" + a + "." + b;
      ValidateEmailComplete(local, a, b);
    }
  }

  /** An accepted address has exactly one `@`, no white space, a non-empty part before
      the `@`, and a dot in the domain that is neither its first nor its last character. */
  lemma ValidEmailShape(email: string)
    requires ValidateEmail(email)
    ensures exists at :: 0 < at < |email| && email[at] == '@'
    ensures forall i, j :: 0 <= i < |email| && 0 <= j < |email| && email[i] == '@' && email[j] == '@' ==> i == j
    ensures forall i :: 0 <= i < |email| ==> !IsSpace(email[i])
    ensures exists at, dot :: 0 < at && at + 1 < dot < |email| - 1 && email[at] == '@' && email[dot] == '.'
  {
    var at := IndexOf(email, '@').value;
    var d := email[at + 1..];
    forall i | 0 <= i < |email| && i != at ensures IsAtomChar(email[i]) {
      if i < at {
        assert email[i] == email[..at][i];
      } else {
        assert email[i] == d[i - at - 1];
      }
    }
    var k :| 1 <= k < |d| - 1 && d[k] == '.';
    assert email[at + 1 + k] == '.';
  }

  /** The first `@` is where the prefix before it has none. */
  lemma IndexOfAt(s: string, c: char, i: nat)
    requires i < |s| && s[i] == c
    requires forall j :: 0 <= j < i ==> s[j] != c
    ensures IndexOf(s, c) == Some(i)
  {
    var r := IndexOf(s, c);
    assert r.Some?;
    assert !(r.value < i);
    assert !(i < r.value);
  }

  /** Some concrete verdicts of the regular expression. */
  lemma AcceptsPlainAddress()
    ensures ValidateEmail("fan@club.com")
  {
    assert "fan@club.com" == "fan" + "@" + "club" + "." + "com";
    ValidateEmailComplete("fan", "club", "com");
  }

  lemma RejectsDotlessDomain()
    ensures !ValidateEmail("fan@clubcom")
  {
    IndexOfAt("fan@clubcom", '@', 3);
  }

  lemma RejectsLeadingDot()
    ensures !ValidateEmail("fan@.com")
  {
    IndexOfAt("fan@.com", '@', 3);
  }

  lemma RejectsDoubleAt()
    ensures !ValidateEmail("fan@@club.com")
  {
    IndexOfAt("fan@@club.com", '@', 3);
    assert "fan@@club.com"[4..][0] == '@';
  }

  lemma RejectsSpace()
    ensures !ValidateEmail("f n@club.com")
  {
    IndexOfAt("f n@club.com", '@', 3);
    assert "f n@club.com"[..3][1] == ' ';
  }
}
