/** How `create` and `update` tell which UNIQUE index a duplicate-key error
    names: as written, by searching the whole driver message for `email`
    and `username`; and by reading the index name at the end of the
    message, which is what the rest of the model assumes. */
module DuplicateMessage {
  import opened Results
  import opened UserTable

  /** The index names of the `users` table as MySQL 8 reports them. */
  function IndexName(k: Key): string
  {
    match k
    case PrimaryKey => "users.PRIMARY"
    case EmailKey => "users.email"
    case UsernameKey => "users.username"
  }

  /** The message of an `ER_DUP_ENTRY` error: the duplicated value, then
      the index. */
  function DuplicateText(value: string, index: string): string
  {
    "Duplicate entry '" + value + "' for key '" + index + "'"
  }

  predicate OccursAt(s: string, t: string, i: nat)
  {
    i + |t| <= |s| && s[i..i + |t|] == t
  }

  /** `s.includes(t)`. */
  predicate Contains(s: string, t: string)
  {
    exists i: nat | i <= |s| :: OccursAt(s, t, i)
  }

  predicate EndsWith(s: string, t: string)
  {
    |t| <= |s| && s[|s| - |t|..] == t
  }

  /** The `catch` of `create` for an `ER_DUP_ENTRY` error, as written. */
  function CreateErrorAsWritten(message: string): (e: Error)
    ensures e == EmailAlreadyExists <==> Contains(message, "email")
    ensures e == UsernameAlreadyExists <==> !Contains(message, "email") && Contains(message, "username")
    ensures e == UserAlreadyExists <==> !Contains(message, "email") && !Contains(message, "username")
  {
    if Contains(message, "email") then EmailAlreadyExists
    else if Contains(message, "username") then UsernameAlreadyExists
    else UserAlreadyExists
  }

  /** The `catch` of `update` for an `ER_DUP_ENTRY` error, as written. */
  function UpdateErrorAsWritten(message: string): (e: Error)
    ensures e == EmailAlreadyExists <==> Contains(message, "email")
    ensures e == UsernameAlreadyExists <==> !Contains(message, "email") && Contains(message, "username")
    ensures e == UpdateFailed <==> !Contains(message, "email") && !Contains(message, "username")
  {
    if Contains(message, "email") then EmailAlreadyExists
    else if Contains(message, "username") then UsernameAlreadyExists
    else UpdateFailed
  }

  /** A duplicate on the username index whose value contains `email` is
      reported, by both operations, as a duplicate email. */
  lemma DuplicateValueMisread()
    ensures CreateErrorAsWritten(DuplicateText("email_fan", IndexName(UsernameKey))) == EmailAlreadyExists
    ensures UpdateErrorAsWritten(DuplicateText("email_fan", IndexName(UsernameKey))) == EmailAlreadyExists
    ensures CreateErrorFor(DuplicateEntry(UsernameKey)) == UsernameAlreadyExists
    ensures UpdateErrorFor(DuplicateEntry(UsernameKey)) == UsernameAlreadyExists
  {
    var m := DuplicateText("email_fan", IndexName(UsernameKey));
    assert OccursAt(m, "email", 17);
  }

  /** The index a duplicate-key message names, read from its end. */
  function DuplicatedIndex(message: string): (k: Key)
    ensures k == EmailKey <==> EndsWith(message, "for key 'users.email'")
    ensures k == UsernameKey <==>
      !EndsWith(message, "for key 'users.email'") && EndsWith(message, "for key 'users.username'")
  {
    if EndsWith(message, "for key 'users.email'") then EmailKey
    else if EndsWith(message, "for key 'users.username'") then UsernameKey
    else PrimaryKey
  }

  lemma EndsWithAppend(a: string, b: string, t: string)
    requires |t| <= |b|
    ensures EndsWith(a + b, t) <==> EndsWith(b, t)
  {
    assert (a + b)[|a + b| - |t|..] == b[|b| - |t|..];
  }

  /** What the end of each message reads as. */
  lemma TailReadsIndex(k: Key)
    ensures var tail := "' for key '" + IndexName(k) + "'";
      && (EndsWith(tail, "for key 'users.email'") <==> k == EmailKey)
      && (k != EmailKey ==> (EndsWith(tail, "for key 'users.username'") <==> k == UsernameKey))
  {
    var tail := "' for key '" + IndexName(k) + "'";
    var e, u := "for key 'users.email'", "for key 'users.username'";
    match k
    case EmailKey =>
      assert tail == "' " + e;
      assert tail[|tail| - |e|..] == e;
    case UsernameKey =>
      assert tail[|tail| - |e|..][|e| - 2] != e[|e| - 2];
      assert tail == "' " + u;
      assert tail[|tail| - |u|..] == u;
    case PrimaryKey =>
      assert tail[|tail| - |e|..][|e| - 2] != e[|e| - 2];
      assert tail[|tail| - |u|..][|u| - 2] != u[|u| - 2];
  }

  /** Reading the index from the end of the message recovers the index
      whatever the duplicated value. */
  lemma DuplicatedIndexReadsIndex(value: string, k: Key)
    ensures DuplicatedIndex(DuplicateText(value, IndexName(k))) == k
  {
    var head, tail := "Duplicate entry '" + value, "' for key '" + IndexName(k) + "'";
    assert DuplicateText(value, IndexName(k)) == head + tail;
    TailReadsIndex(k);
    EndsWithAppend(head, tail, "for key 'users.email'");
    if k != EmailKey {
      EndsWithAppend(head, tail, "for key 'users.username'");
    }
  }

  /** With the index read from the end of the message, both `catch` blocks
      report the violated index, as `CreateErrorFor` and `UpdateErrorFor`
      do. */
  lemma ReadingTheIndexIsCorrect(value: string, k: Key)
    ensures CreateErrorFor(DuplicateEntry(DuplicatedIndex(DuplicateText(value, IndexName(k))))) == CreateErrorFor(DuplicateEntry(k))
    ensures UpdateErrorFor(DuplicateEntry(DuplicatedIndex(DuplicateText(value, IndexName(k))))) == UpdateErrorFor(DuplicateEntry(k))
  {
    DuplicatedIndexReadsIndex(value, k);
  }
}
