/** What the state of internal/state/store.go says of an account, read off the changes that were made, and who
    is let in. */
module Accounts {
  import opened Text
  import opened Octets
  import opened StateModel
  import Password

  predicate Makes(x: Mutation, name: string) { (x.Bootstrap? || x.Create?) && x.username == name }

  predicate SetsPassword(x: Mutation, name: string) { !x.Block? && x.username == name }

  predicate SetsBlock(x: Mutation, name: string) { x.Block? && x.username == name }

  /** The last change of the password of a user, which may be the one that made it. */
  predicate LastPassword(log: seq<Mutation>, k: nat, name: string) {
    k < |log| && SetsPassword(log[k], name) && forall j :: k < j < |log| ==> !SetsPassword(log[j], name)
  }

  predicate LastBlock(log: seq<Mutation>, k: nat, name: string) {
    k < |log| && SetsBlock(log[k], name) && forall j :: k < j < |log| ==> !SetsBlock(log[j], name)
  }

  /** The last block or unblock of the user was a block. */
  predicate BlockedIn(log: seq<Mutation>, name: string) {
    exists k: nat :: k < |log| && LastBlock(log, k, name) && log[k].blocked
  }

  predicate BootstrappedIn(log: seq<Mutation>, name: string) {
    exists k :: 0 <= k < |log| && log[k].Bootstrap? && log[k].username == name
  }

  predicate ChangedIn(log: seq<Mutation>, name: string) {
    exists k :: 0 <= k < |log| && log[k].Change? && log[k].username == name
  }

  // ----- one change -------------------------------------------------------------------------

  /** A change leaves every other account as it was. */
  lemma OthersAreUnchanged(m: Memory, x: Mutation, name: string)
    requires Enabled(m, x) && name != x.username
    ensures var n := Apply(m, x);
            && (name in n.doc.users <==> name in m.doc.users)
            && (name in m.doc.users ==> n.doc.users[name] == m.doc.users[name])
            && (name in n.secrets.passwords <==> name in m.secrets.passwords)
            && (name in m.secrets.passwords ==> n.secrets.passwords[name] == m.secrets.passwords[name])
  {
  }

  /** What a change sets in the account of its user, and what it keeps. */
  lemma OwnAccount(m: Memory, x: Mutation)
    requires Enabled(m, x)
    ensures var (name, n) := (x.username, Apply(m, x));
            && name in n.doc.users
            && n.doc.users[name].username == (if Makes(x, name) then name else m.doc.users[name].username)
            && (Makes(x, name) <==> name !in m.doc.users)
            && n.doc.users[name].blocked ==
                 (if x.Block? then x.blocked else if x.Change? then m.doc.users[name].blocked else false)
            && n.doc.users[name].role ==
                 (if x.Bootstrap? then Admin else if x.Create? then x.role else m.doc.users[name].role)
            && n.doc.users[name].mustChangePassword ==
                 (if x.Bootstrap? then true else if x.Block? then m.doc.users[name].mustChangePassword else false)
            && n.doc.users[name].createdAt == (if Makes(x, name) then x.now else m.doc.users[name].createdAt)
            && n.doc.users[name].passwordChangedAt == (if x.Block? then m.doc.users[name].passwordChangedAt else x.now)
            && (!x.Block? ==> name in n.secrets.passwords && n.secrets.passwords[name] == x.hash)
            && (x.Block? ==> n.secrets.passwords == m.secrets.passwords)
            && n.doc.revision == n.secrets.revision == (m.doc.revision + 1) % 18446744073709551616
  {
  }

  // ----- the whole log ----------------------------------------------------------------------

  /** The account and the conditions of the log, for one more change. */
  lemma OneMoreChange(p: seq<Mutation>, x: Mutation, name: string)
    ensures BlockedIn(p + [x], name) <==> if SetsBlock(x, name) then x.blocked else BlockedIn(p, name)
    ensures BootstrappedIn(p + [x], name) <==> BootstrappedIn(p, name) || (x.Bootstrap? && x.username == name)
    ensures ChangedIn(p + [x], name) <==> ChangedIn(p, name) || (x.Change? && x.username == name)
  {
    BlockedByOneMore(p, x, name);
    var log, n := p + [x], |p|;
    assert log[n] == x;
    assert forall k :: 0 <= k < n ==> log[k] == p[k];
    if k :| 0 <= k < n && p[k].Bootstrap? && p[k].username == name { assert log[k].Bootstrap?; }
    if k :| 0 <= k < n && p[k].Change? && p[k].username == name { assert log[k].Change?; }
  }

  lemma BlockedByOneMore(p: seq<Mutation>, x: Mutation, name: string)
    ensures BlockedIn(p + [x], name) <==> if SetsBlock(x, name) then x.blocked else BlockedIn(p, name)
  {
    var log, n := p + [x], |p|;
    assert log[n] == x;
    assert forall k :: 0 <= k < n ==> log[k] == p[k];
    if SetsBlock(x, name) {
      assert LastBlock(log, n, name);
    } else {
      if k: nat :| LastBlock(p, k, name) && p[k].blocked { assert LastBlock(log, k, name); }
      if k: nat :| LastBlock(log, k, name) && log[k].blocked { assert LastBlock(p, k, name); }
    }
  }

  /** Over every sequence of changes an account is what the changes say: it is there exactly when it was made, it
      is blocked exactly when its last block or unblock was a block, and it must change its password exactly when
      it was bootstrapped and never changed it. */
  lemma {:induction false} AccountIsWhatTheLogSays(log: seq<Mutation>, name: string)
    requires ValidLog(log)
    ensures var users := MemoryOf(log).doc.users;
            && (name in users <==> exists k :: 0 <= k < |log| && Makes(log[k], name))
            && (name in users ==>
                  && users[name].username == name
                  && (users[name].blocked <==> BlockedIn(log, name))
                  && (users[name].mustChangePassword <==> BootstrappedIn(log, name) && !ChangedIn(log, name)))
            && (name !in users ==> forall k :: 0 <= k < |log| ==> log[k].username != name)
  {
    if log == [] {
    } else {
      var n := |log| - 1;
      var p, x := log[..n], log[n];
      assert log == p + [x];
      AccountIsWhatTheLogSays(p, name);
      OneMoreChange(p, x, name);
      if x.username == name { OwnAccount(MemoryOf(p), x); } else { OthersAreUnchanged(MemoryOf(p), x, name); }
      if name !in MemoryOf(p).doc.users { UnmentionedIn(p, name); }
      if k :| 0 <= k < n && Makes(p[k], name) { assert Makes(log[k], name); }
      if k :| 0 <= k < |log| && Makes(log[k], name) {
        if k < n { assert Makes(p[k], name); }
      }
    }
  }

  lemma UnmentionedIn(log: seq<Mutation>, name: string)
    requires forall k :: 0 <= k < |log| ==> log[k].username != name
    ensures !BlockedIn(log, name) && !BootstrappedIn(log, name) && !ChangedIn(log, name)
  {
  }

  /** Its role and creation are those of the change that made it, and only one did. */
  lemma {:induction false} RoleIsThatOfItsMaking(log: seq<Mutation>, k: nat, name: string)
    requires ValidLog(log) && k < |log| && Makes(log[k], name)
    ensures var users := MemoryOf(log).doc.users;
            && name in users && users[name].createdAt == log[k].now
            && users[name].role == if log[k].Bootstrap? then Admin else log[k].role
    ensures forall j :: 0 <= j < |log| && Makes(log[j], name) ==> j == k
    decreases |log|
  {
    var n := |log| - 1;
    var p, x := log[..n], log[n];
    if k == n {
      AccountIsWhatTheLogSays(p, name);
      OwnAccount(MemoryOf(p), x);
      assert forall j :: 0 <= j < n ==> log[j] == p[j];
    } else {
      assert p[k] == log[k];
      RoleIsThatOfItsMaking(p, k, name);
      if x.username == name { OwnAccount(MemoryOf(p), x); } else { OthersAreUnchanged(MemoryOf(p), x, name); }
      assert forall j :: 0 <= j < n ==> log[j] == p[j];
    }
  }

  /** Its hash is the one that its last bootstrap, creation or change stored. */
  lemma {:induction false} HashIsThatOfItsLastChange(log: seq<Mutation>, k: nat, name: string)
    requires ValidLog(log) && LastPassword(log, k, name)
    ensures var m := MemoryOf(log);
            && name in m.doc.users && m.doc.users[name].passwordChangedAt == log[k].now
            && name in m.secrets.passwords && m.secrets.passwords[name] == log[k].hash
    decreases |log|
  {
    var n := |log| - 1;
    var p, x := log[..n], log[n];
    if k == n {
      OwnAccount(MemoryOf(p), x);
    } else {
      assert LastPassword(p, k, name) by { assert forall j :: 0 <= j < n ==> p[j] == log[j]; }
      HashIsThatOfItsLastChange(p, k, name);
      assert !SetsPassword(log[n], name);
      if x.username == name { OwnAccount(MemoryOf(p), x); } else { OthersAreUnchanged(MemoryOf(p), x, name); }
    }
  }

  lemma {:induction false} LastPasswordExists(log: seq<Mutation>, name: string) returns (k: nat)
    requires exists j :: 0 <= j < |log| && SetsPassword(log[j], name)
    ensures LastPassword(log, k, name)
  {
    var n := |log| - 1;
    if SetsPassword(log[n], name) {
      k := n;
    } else {
      var j :| 0 <= j < |log| && SetsPassword(log[j], name);
      assert log[..n][j] == log[j];
      k := LastPasswordExists(log[..n], name);
      assert forall i :: 0 <= i < n ==> log[..n][i] == log[i];
    }
  }

  // ----- who is let in ----------------------------------------------------------------------

  /** VerifyCredentials accepts exactly the users who are there and unblocked, with a password that fits the
      stored record. */
  lemma CredentialsExactly(prf: Password.Prf, m: Memory, username: string, password: Bytes)
    ensures var (name, r) := (NormalizeUsername(username), Credentials(prf, m, username, password));
            && (r.Some? <==>
                  && name.Some? && name.value in m.doc.users && !m.doc.users[name.value].blocked
                  && name.value in m.secrets.passwords
                  && Password.VerifyPassword(prf, password, m.secrets.passwords[name.value]))
            && (r.Some? ==> r.value == m.doc.users[name.value])
  {
    assert !Password.VerifyPassword(prf, password, "") by { assert |Split("", '$')| == 1; }
  }

  /** Over every sequence of changes, with hashes that HashPassword printed: a password is accepted exactly when
      the user was made, was not blocked by its last block or unblock, and the password derives the key of the
      password that the user's last bootstrap, creation or change stored. */
  lemma AcceptedExactly(prf: Password.Prf, log: seq<Mutation>, username: string, password: Bytes,
                        k: nat, secret: Bytes, salt: Bytes)
    requires ValidLog(log) && NormalizeUsername(username).Some?
    requires LastPassword(log, k, NormalizeUsername(username).value)
    requires |salt| == Password.SALT_BYTES && Password.HashPassword(prf, secret, salt) == Some(log[k].hash)
    ensures Credentials(prf, MemoryOf(log), username, password).Some? <==>
              && !BlockedIn(log, NormalizeUsername(username).value)
              && Password.DerivedKey(prf, password, salt, 600000, 32)
                   == Password.DerivedKey(prf, secret, salt, 600000, 32)
  {
    var name := NormalizeUsername(username).value;
    HashIsThatOfItsLastChange(log, k, name);
    AccountIsWhatTheLogSays(log, name);
    CredentialsExactly(prf, MemoryOf(log), username, password);
    Password.HashThenVerify(prf, secret, salt, password);
  }

  /** A name that was never made is refused with any password. */
  lemma UnknownIsRefused(prf: Password.Prf, log: seq<Mutation>, username: string, password: Bytes)
    requires ValidLog(log)
    requires NormalizeUsername(username).Some? ==>
               forall k :: 0 <= k < |log| ==> !Makes(log[k], NormalizeUsername(username).value)
    ensures Credentials(prf, MemoryOf(log), username, password).None?
  {
    if NormalizeUsername(username).Some? { AccountIsWhatTheLogSays(log, NormalizeUsername(username).value); }
  }

  /** A user who was made has a last password, so the two lemmas above cover every log and every name. */
  lemma MadeHasPassword(log: seq<Mutation>, k: nat, name: string) returns (j: nat)
    requires k < |log| && Makes(log[k], name)
    ensures LastPassword(log, j, name)
  {
    assert SetsPassword(log[k], name);
    j := LastPasswordExists(log, name);
  }

  // ----- user names -------------------------------------------------------------------------

  predicate Among(c: char, s: string) { c in s }

  lemma SmallLetter(c: char)
    ensures Among(c, "abcdefghijklmnopqrstuvwxyz") <==> 'a' <= c <= 'z'
  {
    var s := "abcdefghijklmnopqrstuvwxyz";
    assert |s| == 26;
    if 'a' <= c <= 'z' { assert s[c as int - 'a' as int] == c; }
  }

  /** The pattern of user names: a small letter, and 2 to 63 small letters, digits, dots, underscores or hyphens. */
  lemma UsernamePattern(s: string)
    ensures Username(s) <==>
              && 3 <= |s| <= 64 && Among(s[0], "abcdefghijklmnopqrstuvwxyz")
              && forall i :: 1 <= i < |s| ==>
                   Among(s[i], "abcdefghijklmnopqrstuvwxyz") || Among(s[i], "0123456789") || Among(s[i], "._-")
  {
    forall c ensures Among(c, "abcdefghijklmnopqrstuvwxyz") <==> 'a' <= c <= 'z' { SmallLetter(c); }
    forall c ensures Among(c, "0123456789") <==> IsDigit(c) { DecimalDigit(c); }
  }

  lemma DecimalDigit(c: char)
    ensures Among(c, "0123456789") <==> IsDigit(c)
  {
    var s := "0123456789";
    assert |s| == 10;
    if IsDigit(c) { assert s[c as int - '0' as int] == c; }
  }

  /** White space in ASCII: blank, tabulators, line feed, form feed and carriage return. */
  lemma SpaceIsWhiteSpace(c: char)
    ensures Space(c) <==> c as int == 32 || 9 <= c as int <= 13
  {
  }

  predicate AllSpace(s: string) { forall i :: 0 <= i < |s| ==> Space(s[i]) }


  /** The same text but for the case of letters, the second one in small letters. */
  predicate InSmallLetters(s: string, t: string) {
    |s| == |t| && forall i :: 0 <= i < |s| ==> t[i] == if 'A' <= s[i] <= 'Z' then s[i] + ('a' - 'A') else s[i]
  }

  lemma {:induction false} LeftTrimmed(s: string) returns (left: string)
    ensures s == left + TrimLeft(s) && AllSpace(left) && (TrimLeft(s) != [] ==> !Space(TrimLeft(s)[0]))
  {
    if s != [] && Space(s[0]) {
      var rest := LeftTrimmed(s[1..]);
      left := [s[0]] + rest;
    } else {
      left := [];
    }
  }

  lemma {:induction false} RightTrimmed(s: string) returns (right: string)
    ensures s == TrimRight(s) + right && AllSpace(right)
    ensures TrimRight(s) != [] ==> !Space(TrimRight(s)[|TrimRight(s)| - 1])
  {
    if s == [] || !Space(s[|s| - 1]) {
      right := [];
    } else {
      var p, c := s[..|s| - 1], s[|s| - 1];
      var rest := RightTrimmed(p);
      right := rest + [c];
      assert s == p + [c] && TrimRight(s) + (rest + [c]) == TrimRight(p) + rest + [c];
    }
  }

  lemma {:induction false} TrimLeftOf(left: string, s: string)
    requires AllSpace(left) && (s != [] ==> !Space(s[0]))
    ensures TrimLeft(left + s) == s
  {
    if left == [] {
      assert left + s == s;
    } else {
      assert (left + s)[1..] == left[1..] + s;
      TrimLeftOf(left[1..], s);
    }
  }

  lemma {:induction false} TrimRightOf(s: string, right: string)
    requires AllSpace(right) && (s != [] ==> !Space(s[|s| - 1]))
    ensures TrimRight(s + right) == s
  {
    if right == [] {
      assert s + right == s;
    } else {
      var n := |right| - 1;
      assert (s + right)[..|s + right| - 1] == s + right[..n];
      TrimRightOf(s, right[..n]);
    }
  }

  lemma SmallLettersAreLower(s: string, t: string)
    ensures InSmallLetters(s, t) <==> ToLower(s) == t
    ensures Username(ToLower(s)) ==> s != [] && !Space(s[0]) && !Space(s[|s| - 1])
  {
    if s != [] { assert ToLower(s)[0] == Lower(s[0]) && ToLower(s)[|s| - 1] == Lower(s[|s| - 1]); }
  }

  lemma NameIsBetweenSpace(text: string, name: string) returns (left: string, middle: string, right: string)
    requires NormalizeUsername(text) == Some(name)
    ensures Username(name) && text == left + middle + right && AllSpace(left) && AllSpace(right)
    ensures InSmallLetters(middle, name)
  {
    left := LeftTrimmed(text);
    right := RightTrimmed(TrimLeft(text));
    middle := TrimRight(TrimLeft(text));
    SmallLettersAreLower(middle, name);
    assert text == left + (middle + right) == left + middle + right;
  }

  lemma BetweenSpaceIsName(left: string, middle: string, right: string, name: string)
    requires Username(name) && AllSpace(left) && AllSpace(right) && InSmallLetters(middle, name)
    ensures NormalizeUsername(left + middle + right) == Some(name)
  {
    SmallLettersAreLower(middle, name);
    TrimmedMiddle(left, middle, right);
  }

  lemma TrimmedMiddle(left: string, middle: string, right: string)
    requires AllSpace(left) && AllSpace(right) && middle != [] && !Space(middle[0]) && !Space(middle[|middle| - 1])
    ensures TrimRight(TrimLeft(left + middle + right)) == middle
  {
    assert left + middle + right == left + (middle + right);
    TrimLeftOf(left, middle + right);
    TrimRightOf(middle, right);
  }

  /** A text names a user exactly when it is the user's name, in any case of letters, between white space. */
  lemma NamesExactly(text: string, name: string)
    ensures NormalizeUsername(text) == Some(name) <==>
              Username(name) && exists left, middle, right ::
                text == left + middle + right && AllSpace(left) && AllSpace(right) && InSmallLetters(middle, name)
  {
    if NormalizeUsername(text) == Some(name) {
      var left, middle, right := NameIsBetweenSpace(text, name);
    } else if Username(name) {
      forall left, middle, right |
        text == left + middle + right && AllSpace(left) && AllSpace(right) && InSmallLetters(middle, name)
        ensures false
      {
        BetweenSpaceIsName(left, middle, right, name);
      }
    }
  }
}
