/** The account record and the constraints its declaration puts on the
    fields: the login and name character classes, the gender range, and
    which fields are optional. */
module Users {
  import opened Wrappers
  import opened Passwords

  /** Account identifiers (globally unique ids in the service). */
  type Id = nat

  /** Instants, in seconds since the Unix epoch, UTC. */
  type Instant = int

  /** One row of the account table. The optional fields are `Option`s;
      every other field is always present. */
  datatype User = User(
    id: Id,
    login: string,
    password: StoredPassword,
    name: string,
    gender: int,
    birthday: Option<Instant>,
    admin: bool,
    createdOn: Instant,
    createdBy: string,
    modifiedOn: Instant,
    modifiedBy: string,
    revokedOn: Option<Instant>,
    revokedBy: Option<string>)
  {
    /** An account is active while it has no revocation instant. */
    predicate IsActive() {
      revokedOn.None?
    }

    /** The revocation instant and the revoker are both absent or both present. */
    predicate RevocationPaired() {
      revokedOn.None? <==> revokedBy.None?
    }
  }

  /** An inclusive range of characters, as written inside a bracket
      expression of a pattern. */
  datatype CharRange = CharRange(lo: char, hi: char)

  /** The bracket expression of the login pattern: a-z, A-Z, 0-9. */
  const LoginClass: seq<CharRange> :=
    [CharRange('a', 'z'), CharRange('A', 'Z'), CharRange('0', '9')]

  /** The bracket expression of the name pattern: a-z, A-Z, the Cyrillic
      ranges а-я and А-Я, and the two letters ё and Ё outside them. */
  const NameClass: seq<CharRange> :=
    [CharRange('a', 'z'), CharRange('A', 'Z'),
     CharRange('\U{0430}', '\U{044F}'), CharRange('\U{0410}', '\U{042F}'),
     CharRange('\U{0451}', '\U{0451}'), CharRange('\U{0401}', '\U{0401}')]

  /** `c` lies in one of the ranges of `cls`. */
  predicate InClass(c: char, cls: seq<CharRange>) {
    cls != [] && ((cls[0].lo <= c <= cls[0].hi) || InClass(c, cls[1..]))
  }

  /** `s` matches the anchored pattern `^[cls]+$`: one character of the
      class, followed by the rest of the string matching the pattern or
      being empty. */
  predicate MatchesOneOrMore(s: string, cls: seq<CharRange>)
    decreases |s|
  {
    |s| > 0 && InClass(s[0], cls) && (|s| == 1 || MatchesOneOrMore(s[1..], cls))
  }

  predicate IsValidLogin(login: string) {
    MatchesOneOrMore(login, LoginClass)
  }

  predicate IsValidName(name: string) {
    MatchesOneOrMore(name, NameClass)
  }

  predicate GenderInRange(gender: int) {
    0 <= gender <= 2
  }

  /** A record that satisfies every declared field constraint: login and
      name match their patterns, gender is in range, and the required
      password is not empty. The password pattern is not imposed, since the
      column holds a hash. */
  predicate WellFormed(u: User) {
    IsValidLogin(u.login) && IsValidName(u.name) && GenderInRange(u.gender) && u.password != Empty
  }

  // Reference definitions of the character classes, written character by
  // character rather than as pattern ranges.

  predicate IsAsciiLetter(c: char) {
    ('a' <= c <= 'z') || ('A' <= c <= 'Z')
  }

  predicate IsAsciiLetterOrDigit(c: char) {
    IsAsciiLetter(c) || ('0' <= c <= '9')
  }

  /** A Latin letter, or a letter of the modern Russian alphabet. */
  predicate IsNameLetter(c: char) {
    IsAsciiLetter(c)
    || ('\U{0430}' <= c <= '\U{044F}')   // а .. я
    || ('\U{0410}' <= c <= '\U{042F}')   // А .. Я
    || c == '\U{0451}' || c == '\U{0401}' // ё, Ё
  }

  /** The anchored one-or-more pattern accepts exactly the non-empty strings
      all of whose characters are in the class. */
  lemma {:induction false} MatchesOneOrMoreIff(s: string, cls: seq<CharRange>)
    ensures MatchesOneOrMore(s, cls) <==> |s| > 0 && forall i :: 0 <= i < |s| ==> InClass(s[i], cls)
    decreases |s|
  {
    if |s| > 1 {
      MatchesOneOrMoreIff(s[1..], cls);
      assert forall i :: 1 <= i < |s| ==> s[i] == s[1..][i - 1];
    }
  }

  lemma LoginClassMeaning(c: char)
    ensures InClass(c, LoginClass) <==> IsAsciiLetterOrDigit(c)
  {
    var r1 := LoginClass[1..];
    var r2 := r1[1..];
    assert r2 == [CharRange('0', '9')] && r2[1..] == [];
    assert InClass(c, r2) <==> '0' <= c <= '9';
    assert InClass(c, r1) <==> ('A' <= c <= 'Z') || InClass(c, r2);
    assert InClass(c, LoginClass) <==> ('a' <= c <= 'z') || InClass(c, r1);
  }

  lemma NameClassMeaning(c: char)
    ensures InClass(c, NameClass) <==> IsNameLetter(c)
  {
    var r1 := NameClass[1..];
    var r2 := r1[1..];
    var r3 := r2[1..];
    var r4 := r3[1..];
    var r5 := r4[1..];
    assert r5 == [CharRange('\U{0401}', '\U{0401}')] && r5[1..] == [];
    assert InClass(c, r5) <==> c == '\U{0401}';
    assert InClass(c, r4) <==> c == '\U{0451}' || InClass(c, r5);
    assert InClass(c, r3) <==> ('\U{0410}' <= c <= '\U{042F}') || InClass(c, r4);
    assert InClass(c, r2) <==> ('\U{0430}' <= c <= '\U{044F}') || InClass(c, r3);
    assert InClass(c, r1) <==> ('A' <= c <= 'Z') || InClass(c, r2);
    assert InClass(c, NameClass) <==> ('a' <= c <= 'z') || InClass(c, r1);
  }

  /** A login is valid iff it is non-empty and made of ASCII letters and digits. */
  lemma ValidLoginIff(login: string)
    ensures IsValidLogin(login) <==> |login| > 0 && forall i :: 0 <= i < |login| ==> IsAsciiLetterOrDigit(login[i])
  {
    MatchesOneOrMoreIff(login, LoginClass);
    forall i | 0 <= i < |login| {
      LoginClassMeaning(login[i]);
    }
  }

  /** A name is valid iff it is non-empty and made of Latin letters, the
      Cyrillic letters а-я and А-Я, and ё/Ё. */
  lemma ValidNameIff(name: string)
    ensures IsValidName(name) <==> |name| > 0 && forall i :: 0 <= i < |name| ==> IsNameLetter(name[i])
  {
    MatchesOneOrMoreIff(name, NameClass);
    forall i | 0 <= i < |name| {
      NameClassMeaning(name[i]);
    }
  }

  /** The declared constraints, spelled out field by field. */
  lemma WellFormedIff(u: User)
    ensures WellFormed(u) <==>
      && (|u.login| > 0 && forall i :: 0 <= i < |u.login| ==> IsAsciiLetterOrDigit(u.login[i]))
      && (|u.name| > 0 && forall i :: 0 <= i < |u.name| ==> IsNameLetter(u.name[i]))
      && 0 <= u.gender <= 2
      && u.password.Hashed?
  {
    ValidLoginIff(u.login);
    ValidNameIff(u.name);
  }
}
