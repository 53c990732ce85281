/** The record-list operations behind the login form and the admin screens:
    users (index.tsx:98-134), categories (index.tsx:241-256) and the lines of
    the generation request (index.tsx:450-468). Each is a pure function of the
    old list; the component's handlers store the result. */
module Records {
  import opened Wrappers
  import opened Domain

  // ----- Users -----

  /** `users.find(u => u.username === username && u.password === password)`. */
  function FindUser(users: seq<User>, username: string, password: string): (r: Option<User>)
    ensures r.None? <==> forall i :: 0 <= i < |users| ==> !(users[i].username == username && users[i].password == password)
    ensures r.Some? ==> r.value.username == username && r.value.password == password
    ensures r.Some? ==> exists i :: 0 <= i < |users| && users[i] == r.value
                                 && forall j :: 0 <= j < i ==> !(users[j].username == username && users[j].password == password)
  {
    if users == [] then None
    else if users[0].username == username && users[0].password == password then Some(users[0])
    else
      var r := FindUser(users[1..], username, password);
      assert forall i :: 0 <= i < |users| - 1 ==> users[1..][i] == users[i + 1];
      r
  }

  /** A profile field counts as filled in when it is present and not the empty string. */
  predicate Filled(f: Option<string>) {
    f.Some? && f.value != ""
  }

  predicate ProfileComplete(u: User) {
    Filled(u.fullName) && Filled(u.studyProgram) && Filled(u.regNumber)
  }

  /** The screen a successful login leads to. */
  function LoginRoute(u: User): (s: Screen)
    ensures s == AdminDashboard <==> u.role == Admin
    ensures s == StudentProfileCompletion <==> u.role == Student && !ProfileComplete(u)
    ensures s == StudentDashboard <==> u.role == Student && ProfileComplete(u)
  {
    if u.role.Admin? then AdminDashboard
    else if !ProfileComplete(u) then StudentProfileCompletion
    else StudentDashboard
  }

  /** `{ ...currentUser, ...profileData }`. */
  function UpdateProfile(u: User, fullName: string, studyProgram: string, regNumber: string): (u': User)
    ensures u'.username == u.username && u'.password == u.password && u'.role == u.role
    ensures u'.fullName == Some(fullName) && u'.studyProgram == Some(studyProgram) && u'.regNumber == Some(regNumber)
  {
    u.(fullName := Some(fullName), studyProgram := Some(studyProgram), regNumber := Some(regNumber))
  }

  /** `users.map(u => u.username === updated.username ? updated : u)`. */
  function ReplaceByUsername(users: seq<User>, updated: User): (r: seq<User>)
    ensures |r| == |users|
    ensures forall i :: 0 <= i < |users| ==>
      r[i] == if users[i].username == updated.username then updated else users[i]
  {
    seq(|users|, i requires 0 <= i < |users| => if users[i].username == updated.username then updated else users[i])
  }

  predicate UniqueUsernames(users: seq<User>) {
    forall i, j :: 0 <= i < j < |users| ==> users[i].username != users[j].username
  }

  predicate UsernameTaken(users: seq<User>, username: string) {
    exists i :: 0 <= i < |users| && users[i].username == username
  }

  /** The new user of the admin's form: a student without profile data. */
  function NewStudent(username: string, password: string): User {
    User(username, password, Student, None, None, None)
  }

  /** `handleAddUser`: `None` when the username is taken (the list stays as it
      is and the error is set), else the list with the new student appended. */
  function AddUser(users: seq<User>, username: string, password: string): (r: Option<seq<User>>)
    ensures r.None? <==> UsernameTaken(users, username)
    ensures r.Some? ==> |r.value| == |users| + 1 && r.value[..|users|] == users
    ensures r.Some? ==> r.value[|users|] == NewStudent(username, password)
  {
    if UsernameTaken(users, username) then None
    else
      var r := users + [NewStudent(username, password)];
      assert r[..|users|] == users;
      Some(r)
  }

  /** Adding users through the form never introduces a duplicate username. */
  lemma AddUserKeepsUsernamesUnique(users: seq<User>, username: string, password: string)
    requires UniqueUsernames(users)
    ensures AddUser(users, username, password).Some? ==> UniqueUsernames(AddUser(users, username, password).value)
  {
    if !UsernameTaken(users, username) {
      var r := users + [NewStudent(username, password)];
      assert forall i :: 0 <= i < |users| ==> r[i] == users[i];
    }
  }

  /** Replacing a user's record by username keeps the usernames as they were. */
  lemma ReplaceKeepsUsernames(users: seq<User>, updated: User, i: int)
    requires 0 <= i < |users|
    ensures ReplaceByUsername(users, updated)[i].username == users[i].username
  {
  }

  /** After a student completes their profile the stored record is the updated
      one, and logging in again with the same credentials leads to the dashboard. */
  lemma LoginAfterProfileUpdate(users: seq<User>, k: int, fullName: string, studyProgram: string, regNumber: string)
    requires UniqueUsernames(users) && 0 <= k < |users| && users[k].role == Student
    requires fullName != "" && studyProgram != "" && regNumber != ""
    ensures var u' := UpdateProfile(users[k], fullName, studyProgram, regNumber);
            var users' := ReplaceByUsername(users, u');
            FindUser(users', u'.username, u'.password) == Some(u') &&
            LoginRoute(u') == StudentDashboard
  {
    var u' := UpdateProfile(users[k], fullName, studyProgram, regNumber);
    var users' := ReplaceByUsername(users, u');
    assert users'[k] == u';
    var r := FindUser(users', u'.username, u'.password);
    assert r.Some?;
    var i :| 0 <= i < |users'| && users'[i] == r.value;
    assert users[i].username == u'.username;
  }

  // ----- Categories -----

  /** ASCII lower-casing, the part of `toLowerCase` this model covers. */
  function LowerChar(c: char): char {
    if 'A' <= c <= 'Z' then (c as int + 32) as char else c
  }

  function LowerAscii(s: string): (r: string)
    ensures |r| == |s| && forall k :: 0 <= k < |s| ==> r[k] == LowerChar(s[k])
  {
    seq(|s|, k requires 0 <= k < |s| => LowerChar(s[k]))
  }

  predicate SameNameIgnoringCase(a: string, b: string) {
    LowerAscii(a) == LowerAscii(b)
  }

  /** `categories.some(c => c.name.toLowerCase() === name.toLowerCase())`. */
  predicate NameTaken(cats: seq<Category>, name: string) {
    exists i :: 0 <= i < |cats| && SameNameIgnoringCase(cats[i].name, name)
  }

  /** No two categories have names that differ only in case. */
  predicate NamesDistinct(cats: seq<Category>) {
    forall i, j :: 0 <= i < j < |cats| ==> !SameNameIgnoringCase(cats[i].name, cats[j].name)
  }

  predicate IdsDistinct(cats: seq<Category>) {
    forall i, j :: 0 <= i < j < |cats| ==> cats[i].id != cats[j].id
  }

  predicate IdUsed(cats: seq<Category>, id: int) {
    exists i :: 0 <= i < |cats| && cats[i].id == id
  }

  /** `handleAddCategory`: appends `{ id, name }` unless the name is empty or
      taken; `id` is the timestamp the handler reads. */
  function AddCategory(cats: seq<Category>, id: int, name: string): (r: seq<Category>)
    ensures name == "" || NameTaken(cats, name) ==> r == cats
    ensures name != "" && !NameTaken(cats, name) ==> r == cats + [Category(id, name)]
  {
    if name != "" && !NameTaken(cats, name) then cats + [Category(id, name)] else cats
  }

  /** Adding a category keeps names distinct ignoring case, and keeps ids
      distinct when the new id is fresh. */
  lemma AddCategoryKeepsDistinct(cats: seq<Category>, id: int, name: string)
    requires NamesDistinct(cats)
    ensures NamesDistinct(AddCategory(cats, id, name))
    ensures IdsDistinct(cats) && !IdUsed(cats, id) ==> IdsDistinct(AddCategory(cats, id, name))
  {
    var r := AddCategory(cats, id, name);
    if r != cats {
      assert forall i :: 0 <= i < |cats| ==> r[i] == cats[i];
      assert r[|cats|] == Category(id, name);
    }
  }

  /** `handleEditCategory`: `newName` is the reply of the prompt, `None` when it
      was cancelled; a cancelled or empty reply changes nothing. */
  function EditCategory(cats: seq<Category>, id: int, newName: Option<string>): (r: seq<Category>)
    ensures newName.None? || newName.value == "" ==> r == cats
    ensures |r| == |cats|
    ensures forall i :: 0 <= i < |cats| ==> r[i].id == cats[i].id
    ensures newName.Some? && newName.value != "" ==> forall i :: 0 <= i < |cats| ==>
      r[i].name == if cats[i].id == id then newName.value else cats[i].name
  {
    if newName.None? || newName.value == "" then cats
    else seq(|cats|, i requires 0 <= i < |cats| => if cats[i].id == id then cats[i].(name := newName.value) else cats[i])
  }

  /** Unlike adding, renaming does not check for a clash: two distinct names can
      become one. */
  lemma EditCategoryCanDuplicateName()
    ensures var cats := [Category(1, "Logika Verbal"), Category(2, "Matematika Dasar")];
            NamesDistinct(cats) && !NamesDistinct(EditCategory(cats, 2, Some("logika verbal")))
  {
    var cats := [Category(1, "Logika Verbal"), Category(2, "Matematika Dasar")];
    assert LowerAscii(cats[0].name)[0] != LowerAscii(cats[1].name)[0];
    var r := EditCategory(cats, 2, Some("logika verbal"));
    assert r[1].name == "logika verbal";
    assert forall k :: 0 <= k < |"Logika Verbal"| ==> LowerChar("Logika Verbal"[k]) == "logika verbal"[k];
    assert LowerAscii(r[0].name) == LowerAscii(r[1].name);
  }

  /** `categories.filter(c => c.id !== id)`. */
  function DeleteCategory(cats: seq<Category>, id: int): (r: seq<Category>)
    ensures |r| <= |cats|
  {
    if cats == [] then []
    else
      var last := cats[|cats| - 1];
      DeleteCategory(cats[..|cats| - 1], id) + (if last.id != id then [last] else [])
  }

  /** Deleting keeps exactly the categories with another id. */
  lemma {:induction false} DeleteMembership(cats: seq<Category>, id: int)
    ensures forall c :: c in DeleteCategory(cats, id) <==> c in cats && c.id != id
  {
    if cats != [] {
      DeleteMembership(cats[..|cats| - 1], id);
      assert cats == cats[..|cats| - 1] + [cats[|cats| - 1]];
    }
  }

  /** Deleting distributes over concatenation, so the kept categories stay in
      their original order. */
  lemma {:induction false} DeleteAppend(a: seq<Category>, b: seq<Category>, id: int)
    ensures DeleteCategory(a + b, id) == DeleteCategory(a, id) + DeleteCategory(b, id)
  {
    if b == [] {
      assert a + b == a;
    } else {
      DeleteAppend(a, b[..|b| - 1], id);
      assert (a + b)[..|a + b| - 1] == a + b[..|b| - 1];
    }
  }

  /** Deleting an id that no category has changes nothing. */
  lemma {:induction false} DeleteAbsent(cats: seq<Category>, id: int)
    requires !IdUsed(cats, id)
    ensures DeleteCategory(cats, id) == cats
  {
    if cats != [] {
      DeleteAbsent(cats[..|cats| - 1], id);
    }
  }

  // ----- Generation request lines -----

  /** `addConfig`: a new line for the first category (or the empty name when
      there are none), ten questions, multiple choice. */
  function AddConfig(config: seq<ConfigEntry>, cats: seq<Category>): (r: seq<ConfigEntry>)
    ensures |r| == |config| + 1 && r[..|config|] == config
    ensures r[|config|].count == 10 && r[|config|].qtype == MultipleChoice
    ensures r[|config|].category == if cats == [] then "" else cats[0].name
  {
    var r := config + [ConfigEntry(if cats == [] then "" else cats[0].name, 10, MultipleChoice)];
    assert r[..|config|] == config;
    r
  }

  /** The field an `updateConfig(index, field, value)` call sets. */
  datatype ConfigUpdate = SetCategory(category: string) | SetCount(count: int) | SetType(qtype: QuestionType)

  function Apply(e: ConfigEntry, u: ConfigUpdate): ConfigEntry {
    match u
    case SetCategory(c) => e.(category := c)
    case SetCount(n) => e.(count := n)
    case SetType(t) => e.(qtype := t)
  }

  /** `parseInt(e.target.value, 10) || 1`: `None` stands for `NaN`; a zero also
      becomes one, a negative number is kept. */
  function CountFromInput(parsed: Option<int>): (n: int)
    ensures parsed.None? || parsed.value == 0 ==> n == 1
    ensures parsed.Some? && parsed.value != 0 ==> n == parsed.value
    ensures n != 0
  {
    if parsed.None? || parsed.value == 0 then 1 else parsed.value
  }

  /** `testConfig.map((item, i) => i === index ? { ...item, [field]: value } : item)`. */
  function UpdateConfig(config: seq<ConfigEntry>, index: int, u: ConfigUpdate): (r: seq<ConfigEntry>)
    ensures |r| == |config|
  {
    seq(|config|, i requires 0 <= i < |config| => if i == index then Apply(config[i], u) else config[i])
  }

  /** The count field's handler: the line gets the count read from the input,
      which is never zero. */
  lemma CountUpdateNeverZero(config: seq<ConfigEntry>, index: int, parsed: Option<int>)
    requires 0 <= index < |config|
    ensures UpdateConfig(config, index, SetCount(CountFromInput(parsed)))[index]
         == config[index].(count := CountFromInput(parsed))
    ensures UpdateConfig(config, index, SetCount(CountFromInput(parsed)))[index].count != 0
  {
  }

  /** Updating line `index` changes that line alone, and nothing when `index` is
      out of range. */
  lemma UpdateConfigOnlyAtIndex(config: seq<ConfigEntry>, index: int, u: ConfigUpdate)
    ensures 0 <= index < |config| ==> UpdateConfig(config, index, u) == config[index := Apply(config[index], u)]
    ensures !(0 <= index < |config|) ==> UpdateConfig(config, index, u) == config
  {
  }

  /** `testConfig.filter((_, i) => i !== index)`, over the first `n` lines. */
  function RemoveConfigUpTo(config: seq<ConfigEntry>, index: int, n: int): seq<ConfigEntry>
    requires 0 <= n <= |config|
  {
    if n == 0 then []
    else RemoveConfigUpTo(config, index, n - 1) + (if n - 1 != index then [config[n - 1]] else [])
  }

  function RemoveConfig(config: seq<ConfigEntry>, index: int): seq<ConfigEntry> {
    RemoveConfigUpTo(config, index, |config|)
  }

  /** Removing line `index` is cutting it out; an index out of range changes nothing. */
  lemma {:induction false} RemoveConfigIsCut(config: seq<ConfigEntry>, index: int, n: int)
    requires 0 <= n <= |config|
    ensures RemoveConfigUpTo(config, index, n) ==
      if 0 <= index < n then config[..index] + config[index + 1..n] else config[..n]
  {
    if n > 0 {
      RemoveConfigIsCut(config, index, n - 1);
      if 0 <= index < n - 1 {
        assert config[index + 1..n] == config[index + 1..n - 1] + [config[n - 1]];
      } else {
        assert config[..n] == config[..n - 1] + [config[n - 1]];
      }
    }
  }

  lemma RemoveConfigMeaning(config: seq<ConfigEntry>, index: int)
    ensures 0 <= index < |config| ==> RemoveConfig(config, index) == config[..index] + config[index + 1..]
    ensures !(0 <= index < |config|) ==> RemoveConfig(config, index) == config
  {
    RemoveConfigIsCut(config, index, |config|);
    assert config[..|config|] == config;
  }
}
