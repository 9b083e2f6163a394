/**
 * The edit form of a user card: opening it resets the two fields to the
 * user's current name and email; saving trims both, rejects an empty one,
 * then rejects an email without the shape `\S+@\S+\.\S+` somewhere in it,
 * and otherwise issues exactly one updateUser with the trimmed values.
 */
module CardEdit {
  import opened UsersStore

  /**
   * The characters JavaScript's `String.prototype.trim` removes and regular
   * expressions' `\s` matches: the WhiteSpace and LineTerminator code points.
   */
  predicate IsJsWhitespace(c: char) {
    || c == '\t' || c == '\n' || c == '\U{000B}' || c == '\U{000C}' || c == '\r'
    || c == ' ' || c == '\U{00A0}' || c == '\U{1680}'
    || ('\U{2000}' <= c <= '\U{200A}')
    || c == '\U{2028}' || c == '\U{2029}' || c == '\U{202F}' || c == '\U{205F}'
    || c == '\U{3000}' || c == '\U{FEFF}'
  }

  /** Every character of `s[i..j]` is whitespace. */
  predicate WhitespaceBetween(s: string, i: int, j: int)
    requires 0 <= i <= j <= |s|
  {
    forall k :: i <= k < j ==> IsJsWhitespace(s[k])
  }

  predicate AllWhitespace(s: string) {
    WhitespaceBetween(s, 0, |s|)
  }

  /** Where the kept part starts: the first non-whitespace index from `k` on, or `|s|` if none. */
  function FirstKept(s: string, k: nat): (i: nat)
    requires k <= |s|
    ensures k <= i <= |s|
    ensures WhitespaceBetween(s, k, i)
    ensures i < |s| ==> !IsJsWhitespace(s[i])
    decreases |s| - k
  {
    if k < |s| && IsJsWhitespace(s[k]) then FirstKept(s, k + 1) else k
  }

  /** Where the kept part ends: `j` moved back over trailing whitespace, but not below `lo`. */
  function EndKept(s: string, lo: nat, j: nat): (e: nat)
    requires lo <= j <= |s|
    ensures lo <= e <= j
    ensures WhitespaceBetween(s, e, j)
    ensures e > lo ==> !IsJsWhitespace(s[e - 1])
    decreases j
  {
    if j > lo && IsJsWhitespace(s[j - 1]) then EndKept(s, lo, j - 1) else j
  }

  /** `s.trim()`: what is left of `s` once whitespace is removed from both ends. */
  function Trim(s: string): (r: string)
    ensures r == [] <==> AllWhitespace(s)
    ensures r != [] ==> !IsJsWhitespace(r[0]) && !IsJsWhitespace(r[|r| - 1])
  {
    var i := FirstKept(s, 0);
    var e := EndKept(s, i, |s|);
    TrimEmptyIff(s, i, e);
    s[i..e]
  }

  lemma TrimEmptyIff(s: string, i: nat, e: nat)
    requires i == FirstKept(s, 0) && i <= |s| && e == EndKept(s, i, |s|)
    ensures e == i <==> AllWhitespace(s)
  {
    if i < |s| {
      assert !IsJsWhitespace(s[i]);
    }
    if e > i {
      assert !IsJsWhitespace(s[e - 1]);
    }
    if i == |s| {
      assert WhitespaceBetween(s, 0, |s|);
    }
  }

  /** What trim keeps is a contiguous part of `s`; what it drops on either side is whitespace. */
  lemma TrimIsInfix(s: string)
    ensures exists i, j :: 0 <= i <= j <= |s| && Trim(s) == s[i..j]
                           && WhitespaceBetween(s, 0, i) && WhitespaceBetween(s, j, |s|)
  {
    var i := FirstKept(s, 0);
    var e := EndKept(s, i, |s|);
    assert Trim(s) == s[i..e];
  }

  /** A string with no whitespace at either end is its own trim. */
  lemma TrimOfTrimmed(s: string)
    requires s != [] ==> !IsJsWhitespace(s[0]) && !IsJsWhitespace(s[|s| - 1])
    ensures Trim(s) == s
  {
    if s != [] {
      assert FirstKept(s, 0) == 0;
      assert EndKept(s, 0, |s|) == |s|;
    }
  }

  /** Trimming is idempotent. */
  lemma TrimIdempotent(s: string)
    ensures Trim(Trim(s)) == Trim(s)
  {
    TrimOfTrimmed(Trim(s));
  }

  // The email test `/\S+@\S+\.\S+/.test(e)`, unanchored.

  /** `s[i..j]` is a non-empty run of non-whitespace characters. */
  ghost predicate NonSpaceRun(s: string, i: int, j: int) {
    0 <= i < j <= |s| && forall k :: i <= k < j ==> !IsJsWhitespace(s[k])
  }

  /** The regular expression matches `s[i..end]`, with its `@` at `at` and its `.` at `dot`. */
  ghost predicate MatchAt(s: string, i: int, at: int, dot: int, end: int) {
    && NonSpaceRun(s, i, at)
    && at < |s| && s[at] == '@'
    && NonSpaceRun(s, at + 1, dot)
    && dot < |s| && s[dot] == '.'
    && NonSpaceRun(s, dot + 1, end)
  }

  /** The unanchored test: some substring of `s` matches the pattern. */
  ghost predicate EmailShape(s: string) {
    exists i, at, dot, end :: MatchAt(s, i, at, dot, end)
  }

  /** A `.` at `dot` closes a run that starts at `k`, and a non-space follows it. */
  ghost predicate DotAt(s: string, k: int, dot: int) {
    NonSpaceRun(s, k, dot) && dot + 1 < |s| && s[dot] == '.' && !IsJsWhitespace(s[dot + 1])
  }

  /** Search for a `.` after a non-empty run of non-space characters starting at `k`. */
  function DotAfter(s: string, k: nat): bool
    decreases |s| - k
  {
    && k + 1 < |s|
    && !IsJsWhitespace(s[k])
    && ((s[k + 1] == '.' && k + 2 < |s| && !IsJsWhitespace(s[k + 2])) || DotAfter(s, k + 1))
  }

  lemma {:induction false} DotAfterSpec(s: string, k: nat)
    ensures DotAfter(s, k) <==> HasDotFrom(s, k)
    decreases |s| - k
  {
    if k + 1 < |s| {
      DotAfterSpec(s, k + 1);
      if DotAfter(s, k) {
        if s[k + 1] == '.' && k + 2 < |s| && !IsJsWhitespace(s[k + 2]) {
          assert DotAt(s, k, k + 1);
        } else {
          var dot :| DotAt(s, k + 1, dot);
          assert DotAt(s, k, dot);
        }
      }
      if HasDotFrom(s, k) {
        var dot :| DotAt(s, k, dot);
        if dot > k + 1 {
          assert DotAt(s, k + 1, dot);
        }
      }
    }
  }

  ghost predicate HasDotFrom(s: string, k: int) {
    exists dot :: DotAt(s, k, dot)
  }

  /** An `@` at `at`, preceded by a non-space and followed by the rest of the pattern. */
  ghost predicate AtSign(s: string, at: int) {
    1 <= at < |s| && s[at] == '@' && !IsJsWhitespace(s[at - 1]) && HasDotFrom(s, at + 1)
  }

  /** Search for such an `@` at `k` or later. */
  function AtFrom(s: string, k: nat): bool
    decreases |s| - k
  {
    && k < |s|
    && ((s[k] == '@' && 1 <= k && !IsJsWhitespace(s[k - 1]) && DotAfter(s, k + 1)) || AtFrom(s, k + 1))
  }

  lemma {:induction false} AtFromSpec(s: string, k: nat)
    ensures AtFrom(s, k) <==> exists at :: k <= at && AtSign(s, at)
    decreases |s| - k
  {
    if k < |s| {
      AtFromSpec(s, k + 1);
      DotAfterSpec(s, k + 1);
      if AtFrom(s, k) && !AtFrom(s, k + 1) {
        assert AtSign(s, k);
      }
      if exists at :: k <= at && AtSign(s, at) {
        var at :| k <= at && AtSign(s, at);
        if at > k {
          assert k + 1 <= at && AtSign(s, at);
        }
      }
    }
  }

  /** The minimal witnesses of a match: one character on each side of `@` and after `.`. */
  lemma EmailShapeIffAtSign(s: string)
    ensures EmailShape(s) <==> exists at :: 0 <= at && AtSign(s, at)
  {
    if EmailShape(s) {
      var i, at, dot, end :| MatchAt(s, i, at, dot, end);
      assert DotAt(s, at + 1, dot);
      assert HasDotFrom(s, at + 1);
      assert AtSign(s, at);
    }
    if exists at :: 0 <= at && AtSign(s, at) {
      var at :| 0 <= at && AtSign(s, at);
      assert HasDotFrom(s, at + 1);
      var dot :| DotAt(s, at + 1, dot);
      assert MatchAt(s, at - 1, at, dot, dot + 2);
    }
  }

  /** The email test: true exactly when the pattern occurs somewhere in `s`. */
  function HasEmailShape(s: string): (r: bool)
    ensures r <==> EmailShape(s)
  {
    AtFromSpec(s, 0);
    EmailShapeIffAtSign(s);
    AtFrom(s, 0)
  }

  /** The test is unanchored: characters around the match, spaces included, do not matter. */
  lemma EmailShapeUnanchored(prefix: string, e: string, suffix: string)
    requires EmailShape(e)
    ensures EmailShape(prefix + e + suffix)
  {
    var s := prefix + e + suffix;
    var i, at, dot, end :| MatchAt(e, i, at, dot, end);
    var n := |prefix|;
    assert forall k :: 0 <= k < |e| ==> s[n + k] == e[k];
    assert MatchAt(s, n + i, n + at, n + dot, n + end);
  }

  lemma NoAtSignNoShape(s: string)
    requires '@' !in s
    ensures !EmailShape(s)
  {
    forall i, at, dot, end
      ensures !MatchAt(s, i, at, dot, end)
    {
      if 0 <= at < |s| {
        assert s[at] in s;
      }
    }
  }

  /** A directory email has the shape; a string with no `@` never has it. */
  lemma EmailShapeExamples()
    ensures HasEmailShape("Shanna@melissa.tv")
    ensures !HasEmailShape("ada.x.io")
  {
    var s := "Shanna@melissa.tv";
    assert MatchAt(s, 0, 6, 14, 17);
    NoAtSignNoShape("ada.x.io");
  }

  const RequiredMessage: string := "Name and email are required"
  const InvalidEmailMessage: string := "Please enter a valid email"

  /** The outcome of saveEdit: an error toast, or the one updateUser call it makes. */
  datatype SaveOutcome = Rejected(message: string) | Issued(id: int, patch: Patch)

  /** The patch saveEdit sends: the name and email keys only. */
  function NameEmailPatch(name: string, email: string): (p: Patch)
    ensures forall u :: ApplyPatch(u, p) == u.(name := name, email := email)
  {
    Patch(Present(name), Present(email), Absent, Absent, Absent)
  }

  /** saveEdit: the two guards in order, then one updateUser with the trimmed fields. */
  function SaveEdit(user: User, editName: string, editEmail: string): (r: SaveOutcome)
    ensures r == Rejected(RequiredMessage) <==> AllWhitespace(editName) || AllWhitespace(editEmail)
    ensures (r == Rejected(InvalidEmailMessage)) <==>
              (!AllWhitespace(editName) && !AllWhitespace(editEmail) && !EmailShape(Trim(editEmail)))
    ensures r.Issued? <==>
              (!AllWhitespace(editName) && !AllWhitespace(editEmail) && EmailShape(Trim(editEmail)))
    ensures r.Issued? ==> r.id == user.id && r.patch == NameEmailPatch(Trim(editName), Trim(editEmail))
    ensures r.Rejected? ==> r.message == RequiredMessage || r.message == InvalidEmailMessage
  {
    var n := Trim(editName);
    var e := Trim(editEmail);
    if n == [] || e == [] then Rejected(RequiredMessage)
    else if !HasEmailShape(e) then Rejected(InvalidEmailMessage)
    else Issued(user.id, NameEmailPatch(n, e))
  }

  /** An email that is empty after trimming is reported as missing, never as invalid. */
  lemma EmptyEmailIsNeverInvalid(user: User, editName: string, editEmail: string)
    requires AllWhitespace(editEmail)
    ensures SaveEdit(user, editName, editEmail) == Rejected(RequiredMessage)
  {
  }

  /** The form state of a card: the two edit fields and whether the dialog is open. */
  datatype EditForm = EditForm(editName: string, editEmail: string, isEditOpen: bool)

  /** The state a card starts with: the edit dialog closed, the fields holding the user's values. */
  function InitialForm(user: User): (f: EditForm)
    ensures !f.isEditOpen
    ensures OpenEdit(f, user) == f.(isEditOpen := true)
  {
    EditForm(user.name, user.email, false)
  }

  /** openEdit: whatever was typed before, the fields start from the user's current values. */
  function OpenEdit(form: EditForm, user: User): (r: EditForm)
    ensures r.isEditOpen
    ensures r.editName == user.name && r.editEmail == user.email
  {
    EditForm(user.name, user.email, true)
  }

  /**
   * Opening the form on a record whose name and email are already trimmed,
   * non-empty and well-shaped, then saving untouched, issues an update that
   * leaves that record as it was.
   */
  lemma ReopenAndSaveChangesNothing(form: EditForm, user: User)
    requires user.name != [] && !IsJsWhitespace(user.name[0]) && !IsJsWhitespace(user.name[|user.name| - 1])
    requires user.email != [] && !IsJsWhitespace(user.email[0]) && !IsJsWhitespace(user.email[|user.email| - 1])
    requires EmailShape(user.email)
    ensures var f := OpenEdit(form, user);
            var o := SaveEdit(user, f.editName, f.editEmail);
            o.Issued? && o.id == user.id && ApplyPatch(user, o.patch) == user
  {
    SaveOfTrimmed(user, user.name, user.email);
  }

  /** Fields that are already trimmed, non-empty and well-shaped are saved as they are. */
  lemma SaveOfTrimmed(user: User, n: string, e: string)
    requires n != [] && !IsJsWhitespace(n[0]) && !IsJsWhitespace(n[|n| - 1])
    requires e != [] && !IsJsWhitespace(e[0]) && !IsJsWhitespace(e[|e| - 1])
    requires EmailShape(e)
    ensures SaveEdit(user, n, e) == Issued(user.id, NameEmailPatch(n, e))
  {
    TrimOfTrimmed(n);
    TrimOfTrimmed(e);
    assert !AllWhitespace(n) && !AllWhitespace(e);
  }

  /**
   * A successful save, applied by the store, gives every record with the
   * card's id the trimmed name and email and keeps its id, company, createdAt
   * and isLocal; every other record is unchanged and the order is kept.
   */
  lemma SaveThenUpdate(users: seq<User>, user: User, editName: string, editEmail: string)
    requires SaveEdit(user, editName, editEmail).Issued?
    ensures var o := SaveEdit(user, editName, editEmail);
            var r := UpdateAll(users, o.id, o.patch);
            && |r| == |users|
            && (forall i :: 0 <= i < |users| && users[i].id == user.id ==>
                  && r[i].id == users[i].id
                  && r[i].name == Trim(editName) && r[i].email == Trim(editEmail)
                  && r[i].company == users[i].company
                  && r[i].createdAt == users[i].createdAt && r[i].isLocal == users[i].isLocal)
            && (forall i :: 0 <= i < |users| && users[i].id != user.id ==> r[i] == users[i])
  {
  }

  /** A rejected save issues nothing, so the store's list stays as it was. */
  method SaveOnStore(store: Store, user: User, editName: string, editEmail: string) returns (outcome: SaveOutcome)
    modifies store
    ensures outcome == SaveEdit(user, editName, editEmail)
    ensures outcome.Rejected? ==> store.users == old(store.users)
    ensures outcome.Issued? ==> store.users == UpdateAll(old(store.users), user.id, outcome.patch)
  {
    outcome := SaveEdit(user, editName, editEmail);
    if outcome.Issued? {
      store.UpdateUser(outcome.id, outcome.patch);
    }
  }

  /** confirmDelete: deleteUser(user.id) takes the card's record, and any other with its id, out of the list. */
  method ConfirmDelete(store: Store, user: User)
    modifies store
    ensures store.users == RemoveId(old(store.users), user.id)
    ensures user !in store.users
    ensures forall u :: u in old(store.users) && u.id != user.id ==> u in store.users
  {
    store.DeleteUser(user.id);
  }
}
