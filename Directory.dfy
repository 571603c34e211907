/** The patron directory: patron ids mapped to a name and a role, with the
    rules for adding and removing patrons and the directory's row format. */
module Directory {
  import opened Wrappers
  import opened Csv
  import opened Formats
  import opened Policy

  datatype Patron = Patron(name: string, role: Role)

  datatype AddOutcome = Added | DuplicateId | InvalidRole

  /** The role as the directory stores it. */
  function RoleName(role: Role): string
  {
    match role
    case Student => "Student"
    case Faculty => "Faculty"
    case Librarian => "Librarian"
  }

  /** `tolower` in the C locale: only ASCII capitals change. */
  function LowerChar(c: char): char
  {
    if 'A' <= c <= 'Z' then (c as int + 32) as char else c
  }

  /** `toupper` in the C locale. */
  function UpperChar(c: char): char
  {
    if 'a' <= c <= 'z' then (c as int - 32) as char else c
  }

  /** The text lower-cased character by character. */
  function Lower(s: string): string
  {
    seq(|s|, i requires 0 <= i < |s| => LowerChar(s[i]))
  }

  /** The text with its first character upper-cased. */
  function Capitalise(s: string): string
  {
    if |s| == 0 then s else [UpperChar(s[0])] + s[1..]
  }

  /** The role typed in when a patron is added: lower-cased and checked against
      the three role words, then stored with a capital first letter. */
  function NormaliseRole(input: string): (r: Option<Role>)
    ensures r.Some? <==> Lower(input) in {"student", "faculty", "librarian"}
    ensures r.Some? ==> Capitalise(Lower(input)) == RoleName(r.value)
  {
    StudentWord();
    FacultyWord();
    LibrarianWord();
    var lowered := Lower(input);
    if lowered != "student" && lowered != "faculty" && lowered != "librarian" then None
    else
      var stored := Capitalise(lowered);
      Some(if stored == "Student" then Student else if stored == "Faculty" then Faculty else Librarian)
  }

  lemma StudentWord()
    ensures Lower(RoleName(Student)) == "student" && Capitalise("student") == RoleName(Student)
  {
    assert LowerChar('S') == 's' && UpperChar('s') == 'S';
    assert "student"[1..] == "tudent";
  }

  lemma FacultyWord()
    ensures Lower(RoleName(Faculty)) == "faculty" && Capitalise("faculty") == RoleName(Faculty)
  {
    assert LowerChar('F') == 'f' && UpperChar('f') == 'F';
    assert "faculty"[1..] == "aculty";
  }

  lemma LibrarianWord()
    ensures Lower(RoleName(Librarian)) == "librarian" && Capitalise("librarian") == RoleName(Librarian)
  {
    assert LowerChar('L') == 'l' && UpperChar('l') == 'L';
    assert "librarian"[1..] == "ibrarian";
  }

  /** A role word is accepted exactly when it spells a role name in any mix of
      upper and lower case, and then that role is chosen. */
  lemma NormaliseRoleIff(input: string, role: Role)
    ensures NormaliseRole(input) == Some(role) <==> Lower(input) == Lower(RoleName(role))
  {
    StudentWord();
    FacultyWord();
    LibrarianWord();
    var lowered := Lower(input);
    var chosen :=
      if lowered == "student" then Some(Student)
      else if lowered == "faculty" then Some(Faculty)
      else if lowered == "librarian" then Some(Librarian)
      else None;
    assert NormaliseRole(input) == chosen;
  }

  /** A patron as one line of the directory store: id, name and role joined by commas. */
  function UserRow(id: int, p: Patron): (row: string)
    ensures NoComma(p.name) ==> Split(row) == [IntText(id), p.name, RoleName(p.role)]
  {
    var fields := [IntText(id), p.name, RoleName(p.role)];
    if NoComma(p.name) then
      assert RoleName(p.role) != "" && NoComma(RoleName(p.role));
      SplitJoin(fields);
      Join(fields)
    else Join(fields)
  }

  /** One line of the directory store read back: three fields, a numeric id and
      a role spelled exactly; a row with any other role is ignored. */
  function ParseUser(line: string): (r: Row<(int, Patron)>)
    ensures r.Parsed? ==>
      |Split(line)| == 3 && ParseInt(Split(line)[0]) == Some(r.value.0) &&
      r.value.1.name == Split(line)[1] && RoleName(r.value.1.role) == Split(line)[2] &&
      NoComma(r.value.1.name)
  {
    var f := Split(line);
    if |f| != 3 then Skipped
    else match ParseInt(f[0])
      case None => Malformed
      case Some(id) =>
        if f[2] == "Student" then Parsed((id, Patron(f[1], Student)))
        else if f[2] == "Faculty" then Parsed((id, Patron(f[1], Faculty)))
        else if f[2] == "Librarian" then Parsed((id, Patron(f[1], Librarian)))
        else Skipped
  }

  lemma ParseUserOf(line: string, id: int, name: string, role: Role)
    requires |Split(line)| == 3
    requires ParseInt(Split(line)[0]) == Some(id)
    requires Split(line)[1] == name && Split(line)[2] == RoleName(role)
    ensures ParseUser(line) == Parsed((id, Patron(name, role)))
  {
  }

  /** A patron written to the store reads back when the name holds no comma. */
  lemma UserRoundTrip(id: int, p: Patron)
    requires NoComma(p.name)
    ensures ParseUser(UserRow(id, p)) == Parsed((id, p))
  {
    var f := [IntText(id), p.name, RoleName(p.role)];
    assert RoleName(p.role) != "";
    assert NoComma(RoleName(p.role));
    SplitJoin(f);
    ParseIntOfText(id);
    ParseUserOf(UserRow(id, p), id, p.name, p.role);
  }

  /** The directory in memory. */
  class UserManager {
    var users: map<int, Patron>

    /** A directory holding the patrons read from the directory store. */
    constructor (stored: map<int, Patron>)
      ensures users == stored
    {
      users := stored;
    }

    /** Adds a patron under a new id. An id already in use leaves the directory
        as it was, and so does a role word that names no role. */
    method AddUser(newId: int, name: string, roleInput: string) returns (outcome: AddOutcome)
      modifies this
      ensures outcome == DuplicateId <==> newId in old(users)
      ensures outcome == Added <==> newId !in old(users) && NormaliseRole(roleInput).Some?
      ensures outcome == InvalidRole <==> newId !in old(users) && NormaliseRole(roleInput).None?
      ensures outcome != Added ==> users == old(users)
      ensures outcome == Added ==> users == old(users)[newId := Patron(name, NormaliseRole(roleInput).value)]
    {
      if newId in users {
        return DuplicateId;
      }
      var role := NormaliseRole(roleInput);
      if role.None? {
        return InvalidRole;
      }
      users := users[newId := Patron(name, role.value)];
      return Added;
    }

    /** Removes the patron with `userId`, reporting whether there was one. */
    method RemoveUser(userId: int) returns (found: bool)
      modifies this
      ensures found <==> userId in old(users)
      ensures users == old(users) - {userId}
    {
      if userId !in users {
        return false;
      }
      users := users - {userId};
      return true;
    }
  }
}
