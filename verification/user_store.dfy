/**
 * Queries and check-then-insert updates over the `users` collection:
 * the email lookup behind login and registration, and the seeding of the
 * two sample accounts at start-up.
 */
module UserStore {
  import opened Wrappers
  import opened Records

  /** The lookup `find_one({"email": email})`. When several documents carry
      the email (possible after a registration race) the first one in
      insertion order is returned. */
  function FindByEmail(users: seq<User>, email: string): (r: Option<UserId>)
    ensures r.Some? ==> r.value < |users| && users[r.value].email == email
    ensures r.Some? ==> forall j :: 0 <= j < r.value ==> users[j].email != email
    ensures r.None? <==> forall j :: 0 <= j < |users| ==> users[j].email != email
  {
    if |users| == 0 then None
    else if users[0].email == email then Some(0)
    else match FindByEmail(users[1..], email)
      case None => None
      case Some(i) => Some(i + 1)
  }

  /** Whether some user has the email. */
  predicate EmailTaken(users: seq<User>, email: string)
  {
    exists j :: 0 <= j < |users| && users[j].email == email
  }

  /** How many users carry the email. */
  function CountEmail(users: seq<User>, email: string): (n: nat)
    ensures n <= |users|
    ensures n == 0 <==> !EmailTaken(users, email)
  {
    if |users| == 0 then 0
    else
      var last := if users[|users| - 1].email == email then 1 else 0;
      CountEmail(users[..|users| - 1], email) + last
  }

  /** The invariant the pre-insert existence checks aim at. */
  predicate UniqueEmails(users: seq<User>)
  {
    forall i, j :: 0 <= i < j < |users| ==> users[i].email != users[j].email
  }

  /** Appending one user counts its email once more and every other email
      as before. */
  lemma CountEmailAppend(users: seq<User>, u: User, email: string)
    ensures CountEmail(users + [u], email)
         == CountEmail(users, email) + (if u.email == email then 1 else 0)
  {
  }

  /** Appending a user whose email is not yet taken keeps emails unique. */
  lemma AppendFreshKeepsUnique(users: seq<User>, u: User)
    requires UniqueEmails(users)
    requires FindByEmail(users, u.email).None?
    ensures UniqueEmails(users + [u])
  {
  }

  /** Inserts `u` unless a user with its email already exists: the shape of
      both `register` and each half of `init_sample_data`. */
  function InsertIfAbsent(users: seq<User>, u: User): (r: seq<User>)
    ensures FindByEmail(users, u.email).Some? ==> r == users
    ensures FindByEmail(users, u.email).None? ==> |r| == |users| + 1 && r[|users|] == u
    ensures r[..|users|] == users
    ensures FindByEmail(r, u.email).Some?
  {
    if FindByEmail(users, u.email).Some? then users else users + [u]
  }

  const AdminEmail: string := "admin@test.com"
  const StudentEmail: string := "student@test.com"

  /** The seeded administrator, with the hash of its default password. */
  function SampleAdmin(passwordHash: string): User
  {
    User("Admin", AdminEmail, passwordHash, Admin)
  }

  /** The seeded student, with the hash of its default password. */
  function SampleStudent(passwordHash: string): User
  {
    User("Student", StudentEmail, passwordHash, Student)
  }

  /** `init_sample_data`: seeds the administrator, then the student, each
      only when no user with that email exists yet. The hashes of the
      default password are inputs because hashing is salted. */
  function InitSampleData(users: seq<User>, adminHash: string, studentHash: string): (r: seq<User>)
    ensures |users| <= |r| <= |users| + 2
    ensures r[..|users|] == users
    ensures EmailTaken(r, AdminEmail) && EmailTaken(r, StudentEmail)
    ensures |r| == |users| + (if EmailTaken(users, AdminEmail) then 0 else 1)
                           + (if EmailTaken(users, StudentEmail) then 0 else 1)
    ensures !EmailTaken(users, AdminEmail) ==> r[|users|] == SampleAdmin(adminHash)
    ensures !EmailTaken(users, StudentEmail) ==> r[|r| - 1] == SampleStudent(studentHash)
  {
    InsertIfAbsent(InsertIfAbsent(users, SampleAdmin(adminHash)), SampleStudent(studentHash))
  }

  /** Running the seeding twice gives the store that running it once gives,
      whatever hashes the second run would have stored. */
  lemma InitSampleDataIdempotent(users: seq<User>, a1: string, s1: string, a2: string, s2: string)
    ensures InitSampleData(InitSampleData(users, a1, s1), a2, s2) == InitSampleData(users, a1, s1)
  {
  }

  /** After seeding, each sample email is held by as many users as before,
      or by exactly one if none held it; every other email is untouched. */
  lemma InitSampleDataCounts(users: seq<User>, adminHash: string, studentHash: string, email: string)
    ensures var r := InitSampleData(users, adminHash, studentHash);
            CountEmail(r, email)
            == if (email == AdminEmail || email == StudentEmail) && CountEmail(users, email) == 0
               then 1 else CountEmail(users, email)
  {
  }

  /** A store holding neither sample email ends with exactly one of each. */
  lemma InitSampleDataOnEmptyOfSamples(users: seq<User>, adminHash: string, studentHash: string)
    requires !EmailTaken(users, AdminEmail) && !EmailTaken(users, StudentEmail)
    ensures var r := InitSampleData(users, adminHash, studentHash);
            CountEmail(r, AdminEmail) == 1 && CountEmail(r, StudentEmail) == 1
  {
  }

  /** When a sample email was free, looking it up after seeding finds the
      seeded account, with its role. */
  lemma InitSampleDataRoles(users: seq<User>, adminHash: string, studentHash: string)
    ensures var r := InitSampleData(users, adminHash, studentHash);
            !EmailTaken(users, AdminEmail) ==>
              FindByEmail(r, AdminEmail) == Some(|users|) && r[|users|].role == Admin
    ensures var r := InitSampleData(users, adminHash, studentHash);
            !EmailTaken(users, StudentEmail) ==>
              FindByEmail(r, StudentEmail) == Some(|r| - 1) && |users| <= |r| - 1 && r[|r| - 1].role == Student
  {
    var r := InitSampleData(users, adminHash, studentHash);
    assert forall j :: 0 <= j < |users| ==> r[j] == users[j];
    if !EmailTaken(users, AdminEmail) {
      assert r[|users|].email == AdminEmail;
    }
    if !EmailTaken(users, StudentEmail) {
      assert r[|r| - 1].email == StudentEmail;
      forall j | 0 <= j < |r| - 1
        ensures r[j].email != StudentEmail
      {
        if j >= |users| {
          assert j == |users| && r[j] == SampleAdmin(adminHash);
        }
      }
    }
  }

  /** Seeding keeps emails unique. */
  lemma InitSampleDataKeepsUnique(users: seq<User>, adminHash: string, studentHash: string)
    requires UniqueEmails(users)
    ensures UniqueEmails(InitSampleData(users, adminHash, studentHash))
  {
  }
}
