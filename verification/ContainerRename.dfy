// The database part of containerMERCURY.Rename (apollo/container_mercury.go) with
// dbContainerRename and dbContainerGetSnapshots (apollo/db_containers.go).
module ContainerRename {
  import opened Wrappers
  import opened Tables
  import opened ContainerStore
  import opened ContainerFrames
  import opened ContainerDatabase

  predicate SlashFree(s: string) { '/' !in s }

  // ----------------------------------------------------------- filepath.Base

  function StripSlashes(path: string): string {
    if path != "" && path[|path| - 1] == '/' then StripSlashes(path[..|path| - 1]) else path
  }

  function LastElement(path: string): string {
    if path == "" || path[|path| - 1] == '/' then "" else LastElement(path[..|path| - 1]) + [path[|path| - 1]]
  }

  function Base(path: string): string {
    if path == "" then "."
    else if StripSlashes(path) == "" then "/"
    else LastElement(StripSlashes(path))
  }

  lemma {:induction false} LastElementSlashFree(path: string)
    ensures SlashFree(LastElement(path))
  {
    if path != "" && path[|path| - 1] != '/' { LastElementSlashFree(path[..|path| - 1]); }
  }

  lemma {:induction false} LastElementAfterSlash(dir: string, s: string)
    requires SlashFree(s)
    ensures LastElement(dir + "/" + s) == s
  {
    var path := dir + "/" + s;
    if s != "" {
      var n := |s| - 1;
      assert path[..|path| - 1] == dir + "/" + s[..n] && path[|path| - 1] == s[n];
      assert s == s[..n] + [s[n]];
      LastElementAfterSlash(dir, s[..n]);
    }
  }

  lemma {:induction false} StripKeepsName(name: string, tail: string)
    requires name != "" && SlashFree(name)
    ensures StripSlashes(name + tail) != ""
  {
    if tail == "" {
      assert name + tail == name && name[|name| - 1] in name;
    } else {
      var path := name + tail;
      assert path[..|path| - 1] == name + tail[..|tail| - 1];
      StripKeepsName(name, tail[..|tail| - 1]);
    }
  }

  // filepath.Base finds the snapshot's own name exactly when that name is not
  // empty and has no slash.
  lemma BaseIsSnapshotName(name: string, snap: string)
    requires name != "" && SlashFree(name)
    ensures Base(name + "/" + snap) == snap <==> snap != "" && SlashFree(snap)
  {
    var path := name + "/" + snap;
    assert path == name + ("/" + snap);
    StripKeepsName(name, "/" + snap);
    if snap != "" && SlashFree(snap) {
      assert snap[|snap| - 1] in snap && path[|path| - 1] == snap[|snap| - 1];
      LastElementAfterSlash(name, snap);
    } else if snap == "" {
      assert path[..|path| - 1] == name && name[|name| - 1] in name;
      assert StripSlashes(path) == name && LastElement(name) != "";
    } else {
      LastElementSlashFree(StripSlashes(path));
    }
  }

  lemma {:induction false} OnlySlashes(path: string, slashes: string)
    requires forall i :: 0 <= i < |slashes| ==> slashes[i] == '/'
    ensures StripSlashes(path + slashes) == StripSlashes(path)
  {
    if slashes == "" {
      assert path + slashes == path;
    } else {
      var n := |slashes| - 1;
      assert (path + slashes)[..|path + slashes| - 1] == path + slashes[..n];
      OnlySlashes(path, slashes[..n]);
    }
  }

  // Slashes at the end do not matter; without anything else they are "/", and
  // nothing at all is ".".
  lemma BaseExactly(dir: string, s: string, slashes: string)
    requires s != "" && SlashFree(s)
    requires forall i :: 0 <= i < |slashes| ==> slashes[i] == '/'
    ensures Base(dir + "/" + s + slashes) == s && Base(s + slashes) == s
    ensures Base(slashes) == if slashes == "" then "." else "/"
  {
    var last := s[|s| - 1];
    assert last in s;
    OnlySlashes(dir + "/" + s, slashes);
    assert (dir + "/" + s)[|dir + "/" + s| - 1] == last;
    LastElementAfterSlash(dir, s);
    OnlySlashes(s, slashes);
    WholeElement(s);
    OnlySlashes("", slashes);
    assert "" + slashes == slashes;
  }

  lemma {:induction false} WholeElement(s: string)
    requires SlashFree(s)
    ensures LastElement(s) == s
  {
    if s != "" {
      assert s[|s| - 1] in s && s[..|s| - 1] + [s[|s| - 1]] == s;
      WholeElement(s[..|s| - 1]);
    }
  }

  // ------------------------------------------------------------------- renaming

  // SUBSTR(name, 1, length) = prefix, for the prefix `name` plus delimiter.
  predicate Under(s: string, name: string) {
    |name| + 1 <= |s| && s[..|name| + 1] == name + "/"
  }

  predicate IsSnapshotOf(row: ContainerRow, name: string) {
    row.ctype == Snapshot && Under(row.name, name)
  }

  // The snapshots of a container are those whose names continue its own after a slash.
  lemma SnapshotOfExactly(row: ContainerRow, name: string)
    ensures IsSnapshotOf(row, name) <==> row.ctype == Snapshot && exists snap :: row.name == name + "/" + snap
  {
    if IsSnapshotOf(row, name) { assert row.name == name + "/" + row.name[|name| + 1..]; }
    if snap :| row.name == name + "/" + snap { assert row.name[..|name| + 1] == name + "/"; }
  }

  function SnapName(row: ContainerRow, name: string): string
    requires IsSnapshotOf(row, name)
  {
    row.name[|name| + 1..]
  }

  // Where a row's name ends up.
  function Moved(row: ContainerRow, oldName: string, newName: string): string {
    if row.name == oldName then newName
    else if IsSnapshotOf(row, oldName) then newName + "/" + Base(row.name)
    else row.name
  }

  ghost predicate PlainSnapshots(db: Db, name: string) {
    forall i :: i in db.containers.rows && IsSnapshotOf(db.containers.rows[i], name)
                ==> SnapName(db.containers.rows[i], name) != "" && SlashFree(SnapName(db.containers.rows[i], name))
  }

  // UPDATE containers SET name = to WHERE name = from
  function RenamedRows(rows: map<int, ContainerRow>, from: string, to: string): map<int, ContainerRow> {
    map i | i in rows :: if rows[i].name == from then rows[i].(name := to) else rows[i]
  }

  lemma RenamedNone(rows: map<int, ContainerRow>, from: string, to: string)
    requires forall i :: i in rows ==> rows[i].name != from
    ensures RenamedRows(rows, from, to) == rows
  {
    var r := RenamedRows(rows, from, to);
    forall i | i in rows || i in r ensures i in rows && i in r && r[i] == rows[i] {}
  }

  lemma RenamedOne(rows: map<int, ContainerRow>, from: string, to: string, id: int)
    requires UniqueNames(rows)
    requires id in rows && rows[id].name == from
    ensures RenamedRows(rows, from, to) == rows[id := rows[id].(name := to)]
  {
    var r, t := RenamedRows(rows, from, to), rows[id := rows[id].(name := to)];
    forall i | i in t || i in r ensures i in t && i in r && r[i] == t[i] {}
  }

  method RenameRow(d: Database, from: string, to: string) returns (ok: bool)
    requires Valid(d.db)
    modifies d
    ensures ok <==> from == to || !HasName(old(d.db), from) || !HasName(old(d.db), to)
    ensures !ok ==> d.db == old(d.db)
    ensures Valid(d.db)
    ensures ok ==> d.db == old(d.db).(containers :=
              old(d.db).containers.(rows := RenamedRows(old(d.db).containers.rows, from, to)))
  {
    var rows := d.db.containers.rows;
    if !HasName(d.db, from) {
      RenamedNone(rows, from, to);
      return true;
    }
    if from != to && HasName(d.db, to) {
      return false;
    }
    var id :| id in rows && rows[id].name == from;
    RowUpdateIsValid(d.db, id, rows[id].(name := to));
    RenamedOne(rows, from, to, id);
    d.db := WithRow(d.db, id, rows[id].(name := to));
    return true;
  }

  // dbContainerGetSnapshots: the loop over the rows of its query, in any order.
  method GetSnapshots(d: Database, name: string) returns (names: set<string>)
    ensures forall s :: s in names <==> exists i ::
              i in d.db.containers.rows && IsSnapshotOf(d.db.containers.rows[i], name) &&
                  d.db.containers.rows[i].name == s
  {
    names := {};
    var ids := d.db.containers.rows.Keys;
    while ids != {}
      invariant ids <= d.db.containers.rows.Keys
      invariant forall s :: s in names ==> exists i ::
                  i in d.db.containers.rows && IsSnapshotOf(d.db.containers.rows[i], name) &&
                      d.db.containers.rows[i].name == s
      invariant forall i :: i in d.db.containers.rows && i !in ids && IsSnapshotOf(d.db.containers.rows[i], name)
                  ==> d.db.containers.rows[i].name in names
      decreases ids
    {
      ghost var some := Element(ids);
      var i :| i in ids;
      ids := ids - {i};
      var row := d.db.containers.rows[i];
      if row.ctype == Snapshot && Under(row.name, name) {
        names := names + {row.name};
      }
    }
  }

  // Rows while renaming: those whose snapshot name is in `rest` are yet to move.
  ghost predicate Moving(rows: map<int, ContainerRow>, rows': map<int, ContainerRow>, oldName: string, newName: string,
                         rest: set<string>) {
    && (forall i :: i in rows <==> i in rows')
    && (forall i :: i in rows && i in rows' ==>
          rows'[i] == rows[i].(name := if IsSnapshotOf(rows[i], oldName) && rows[i].name in rest then rows[i].name
                                       else Moved(rows[i], oldName, newName)))
  }

  // A slash-free name ends where the first slash of what is under it stands.
  lemma UnderFirstSlash(s: string, name: string)
    requires Under(s, name)
    requires SlashFree(name)
    ensures s == name + "/" + s[|name| + 1..] && s[|name|] == '/' && '/' in s
    ensures forall k :: 0 <= k < |name| ==> s[k] != '/'
  {
  }

  // A string is under one slash-free name at most, and is none itself.
  lemma UnderOne(s: string, a: string, b: string)
    requires SlashFree(a) && SlashFree(b)
    requires Under(s, a)
    ensures Under(s, b) <==> a == b
    ensures s != b
  {
    UnderFirstSlash(s, a);
    if Under(s, b) {
      UnderFirstSlash(s, b);
      assert |a| == |b|;
      assert a == s[..|a|] && b == s[..|b|];
    }
  }

  lemma SamePrefix(p: string, x: string, y: string)
    requires x != y
    ensures p + x != p + y
  {
    assert (p + x)[|p|..] == x && (p + y)[|p|..] == y;
  }

  // A row has the name to which snapshot i moves, or another snapshot moves there too.
  ghost predicate ClashesAt(rows: map<int, ContainerRow>, oldName: string, newName: string, i: int) {
    && i in rows && IsSnapshotOf(rows[i], oldName)
    && exists j :: j in rows && j != i && (rows[j].name == Moved(rows[i], oldName, newName)
                   || (IsSnapshotOf(rows[j], oldName) &&
                       Moved(rows[j], oldName, newName) == Moved(rows[i], oldName, newName)))
  }

  ghost predicate Clashes(rows: map<int, ContainerRow>, oldName: string, newName: string) {
    exists i :: ClashesAt(rows, oldName, newName, i)
  }

  lemma MovedUnder(row: ContainerRow, oldName: string, newName: string)
    requires SlashFree(oldName) && SlashFree(newName) && oldName != newName
    requires IsSnapshotOf(row, oldName)
    ensures Under(Moved(row, oldName, newName), newName) && !Under(Moved(row, oldName, newName), oldName)
    ensures Moved(row, oldName, newName) != oldName && Moved(row, oldName, newName) != newName && row.name != oldName
  {
    UnderOne(row.name, oldName, oldName);
    var t := Moved(row, oldName, newName);
    assert t[..|newName| + 1] == newName + "/";
    UnderOne(t, newName, oldName);
    UnderOne(t, newName, newName);
    if t == oldName { UnderFirstSlash(t, newName); }
  }

  // The name to which the next snapshot moves is taken only if it clashes.
  lemma TargetIsFree(rows: map<int, ContainerRow>, rows': map<int, ContainerRow>, oldName: string, newName: string,
                     rest: set<string>,
                     id: int)
    requires UniqueNames(rows)
    requires SlashFree(oldName) && SlashFree(newName) && oldName != newName
    requires Moving(rows, rows', oldName, newName, rest)
    requires id in rows && IsSnapshotOf(rows[id], oldName) && rows[id].name in rest
    requires !ClashesAt(rows, oldName, newName, id)
    ensures forall i :: i in rows' ==> rows'[i].name != Moved(rows[id], oldName, newName)
  {
    MovedUnder(rows[id], oldName, newName);
    forall i | i in rows' ensures rows'[i].name != Moved(rows[id], oldName, newName) {
      if IsSnapshotOf(rows[i], oldName) {
        MovedUnder(rows[i], oldName, newName);
      }
    }
  }

  // One more snapshot has moved.
  lemma MovedOneMore(rows: map<int, ContainerRow>, rows': map<int, ContainerRow>, oldName: string, newName: string,
                     rest: set<string>, id: int)
    requires UniqueNames(rows)
    requires SlashFree(oldName) && SlashFree(newName) && oldName != newName
    requires Moving(rows, rows', oldName, newName, rest)
    requires id in rows && IsSnapshotOf(rows[id], oldName) && rows[id].name in rest
    ensures Moving(rows, RenamedRows(rows', rows[id].name, Moved(rows[id], oldName, newName)), oldName, newName,
              rest - {rows[id].name})
  {
    var sname := rows[id].name;
    UnderOne(sname, oldName, newName);
    UnderOne(sname, oldName, oldName);
    forall i | i in rows && i != id ensures rows'[i].name != sname {
      assert rows[i].name != sname;
      if IsSnapshotOf(rows[i], oldName) && rows[i].name !in rest { MovedUnder(rows[i], oldName, newName); }
      if rows[i].name == oldName { UnderFirstSlash(sname, oldName); }
    }
  }

  // With all snapshots moved and names still unique, none clashed.
  lemma MovedWithoutClash(rows: map<int, ContainerRow>, rows': map<int, ContainerRow>, oldName: string, newName: string)
    requires UniqueNames(rows')
    requires SlashFree(oldName) && SlashFree(newName) && oldName != newName
    requires Moving(rows, rows', oldName, newName, {})
    ensures !Clashes(rows, oldName, newName)
  {
    forall i, j | i in rows && IsSnapshotOf(rows[i], oldName) && j in rows && j != i
      ensures rows[j].name != Moved(rows[i], oldName, newName)
      ensures IsSnapshotOf(rows[j], oldName) ==> Moved(rows[j], oldName, newName) != Moved(rows[i], oldName, newName)
    {
      MovedUnder(rows[i], oldName, newName);
      assert rows'[i].name != rows'[j].name;
      if IsSnapshotOf(rows[j], oldName) { MovedUnder(rows[j], oldName, newName); }
    }
  }

  // shared.ValidHostname
  predicate ValidHostname(name: string) {
    && 1 <= |name| <= 63
    && name[0] != '-' && !('0' <= name[0] <= '9')
    && name[|name| - 1] != '-'
    && forall c :: c in name ==> c == '-' || 'a' <= c <= 'z' || 'A' <= c <= 'Z' || '0' <= c <= '9'
  }

  predicate IsLetter(c: char) { 'a' <= c <= 'z' || 'A' <= c <= 'Z' }

  predicate IsWordChar(c: char) { IsLetter(c) || '0' <= c <= '9' }

  // A host name is a letter, then letters, digits and dashes, with no dash at the
  // end, 63 characters at most.
  lemma HostNamesExactly(name: string)
    ensures ValidHostname(name) <==>
              && name != "" && |name| < 64
              && IsLetter(name[0])
              && (forall i :: 0 < i < |name| ==> IsWordChar(name[i]) || name[i] == '-')
              && IsWordChar(name[|name| - 1])
  {
    forall i | 0 <= i < |name| ensures name[i] in name {}
    if ValidHostname(name) {
      assert name[0] in name && name[|name| - 1] in name;
    }
  }

  // Containers that are not snapshots were created under host names.
  ghost predicate HostNames(db: Db) {
    forall i :: i in db.containers.rows && db.containers.rows[i].ctype == Regular ==>
        ValidHostname(db.containers.rows[i].name)
  }

  predicate NamesSnapshot(db: Db, name: string) {
    exists i :: i in db.containers.rows && db.containers.rows[i].name == name && db.containers.rows[i].ctype == Snapshot
  }

  lemma AfterFirst(rows: map<int, ContainerRow>, oldName: string, newName: string, rows': map<int, ContainerRow>,
                   results: set<string>)
    requires SlashFree(oldName) && SlashFree(newName)
    requires rows' == RenamedRows(rows, oldName, newName)
    requires forall s :: s in results <==>
              exists i :: i in rows' && IsSnapshotOf(rows'[i], oldName) && rows'[i].name == s
    ensures Moving(rows, rows', oldName, newName, results)
    ensures forall s :: s in results ==> exists i :: i in rows && IsSnapshotOf(rows[i], oldName) && rows[i].name == s
  {
    forall i | i in rows && IsSnapshotOf(rows[i], oldName) ensures rows'[i] == rows[i] && rows[i].name in results {
      UnderOne(rows[i].name, oldName, oldName);
    }
    forall s | s in results ensures exists i :: i in rows && IsSnapshotOf(rows[i], oldName) && rows[i].name == s {
      var i :| i in rows' && IsSnapshotOf(rows'[i], oldName) && rows'[i].name == s;
      UnderOne(s, oldName, newName);
      assert rows[i] == rows'[i];
    }
  }

  lemma HostNameIsSlashFree(name: string)
    requires ValidHostname(name)
    ensures SlashFree(name) && name != ""
  {
  }

  // The container's row, then its snapshots' rows.
  method RenameAll(d: Database, oldName: string, newName: string) returns (ok: bool)
    requires Valid(d.db)
    requires HostNames(d.db)
    requires HasName(d.db, oldName) && !HasName(d.db, newName) && !NamesSnapshot(d.db, oldName)
    requires ValidHostname(newName)
    modifies d
    ensures Valid(d.db)
    ensures d.db == old(d.db).(containers := old(d.db).containers.(rows := d.db.containers.rows))
    ensures ok <==> !Clashes(old(d.db).containers.rows, oldName, newName)
    ensures ok ==> Moving(old(d.db).containers.rows, d.db.containers.rows, oldName, newName, {})
    ensures exists rest :: Moving(old(d.db).containers.rows, d.db.containers.rows, oldName, newName, rest)
  {
    ghost var begin := d.db;
    ghost var rows := d.db.containers.rows;
    ghost var own :| own in rows && rows[own].name == oldName;
    HostNameIsSlashFree(oldName);
    HostNameIsSlashFree(newName);
    ok := RenameRow(d, oldName, newName);
    var results := GetSnapshots(d, oldName);
    AfterFirst(rows, oldName, newName, d.db.containers.rows, results);
    while results != {}
      invariant Valid(d.db)
      invariant d.db == begin.(containers := begin.containers.(rows := d.db.containers.rows))
      invariant Moving(rows, d.db.containers.rows, oldName, newName, results)
      invariant forall s :: s in results ==>
                exists i :: i in rows && IsSnapshotOf(rows[i], oldName) && rows[i].name == s
      decreases results
    {
      var sname :| sname in results;
      ghost var id :| id in rows && IsSnapshotOf(rows[id], oldName) && rows[id].name == sname;
      MovedUnder(rows[id], oldName, newName);
      if !ClashesAt(rows, oldName, newName, id) {
        TargetIsFree(rows, d.db.containers.rows, oldName, newName, results, id);
      }
      MovedOneMore(rows, d.db.containers.rows, oldName, newName, results, id);
      ok := RenameRow(d, sname, newName + "/" + Base(sname));
      if !ok {
        assert ClashesAt(rows, oldName, newName, id);
        return false;
      }
      results := results - {sname};
    }
    MovedWithoutClash(rows, d.db.containers.rows, oldName, newName);
    return true;
  }

  // The one row of that name is a snapshot's or a container's.
  lemma NamesOneRow(db: Db, name: string, i: int)
    requires UniqueNames(db.containers.rows)
    requires i in db.containers.rows && db.containers.rows[i].name == name
    ensures NamesSnapshot(db, name) <==> db.containers.rows[i].ctype != Regular
  {
  }

  // containerMERCURY.Rename, to a name not in use, as the API checks before. There
  // is no transaction around it: a clash leaves some of the snapshots moved.
  method Rename(d: Database, oldName: string, newName: string) returns (ok: bool)
    requires Valid(d.db)
    requires HostNames(d.db)
    requires HasName(d.db, oldName) && !HasName(d.db, newName)
    modifies d
    ensures Valid(d.db)
    ensures d.db == old(d.db).(containers := old(d.db).containers.(rows := d.db.containers.rows))
    ensures NamesSnapshot(old(d.db), oldName) ==>
              ok && d.db.containers.rows == RenamedRows(old(d.db).containers.rows, oldName, newName)
    ensures !NamesSnapshot(old(d.db), oldName) ==>
              (ok <==> ValidHostname(newName) && !Clashes(old(d.db).containers.rows, oldName, newName))
    ensures !NamesSnapshot(old(d.db), oldName) && ok ==>
              Moving(old(d.db).containers.rows, d.db.containers.rows, oldName, newName, {})
    ensures !NamesSnapshot(old(d.db), oldName) && !ok ==>
              if ValidHostname(newName)
              then exists rest :: Moving(old(d.db).containers.rows, d.db.containers.rows, oldName, newName, rest)
              else d.db == old(d.db)
  {
    if NamesSnapshot(d.db, oldName) {
      ok := RenameRow(d, oldName, newName);
      return;
    }
    if !ValidHostname(newName) {
      return false;
    }
    ok := RenameAll(d, oldName, newName);
  }

  lemma PlainMoves(row: ContainerRow, oldName: string, newName: string)
    requires SlashFree(oldName) && oldName != ""
    requires IsSnapshotOf(row, oldName)
    ensures Moved(row, oldName, newName) == newName + "/" + SnapName(row, oldName) <==>
              SnapName(row, oldName) != "" && SlashFree(SnapName(row, oldName))
  {
    UnderOne(row.name, oldName, oldName);
    UnderFirstSlash(row.name, oldName);
    BaseIsSnapshotName(oldName, SnapName(row, oldName));
    if Base(row.name) != SnapName(row, oldName) {
      SamePrefix(newName + "/", Base(row.name), SnapName(row, oldName));
    }
  }

  ghost predicate ShareElement(rows: map<int, ContainerRow>, name: string, i: int, j: int) {
    && i in rows && j in rows && i != j
    && IsSnapshotOf(rows[i], name) && IsSnapshotOf(rows[j], name)
    && Base(rows[i].name) == Base(rows[j].name)
  }

  ghost predicate SharesElement(rows: map<int, ContainerRow>, name: string) {
    exists i, j :: ShareElement(rows, name, i, j)
  }

  lemma MovesByElement(a: ContainerRow, b: ContainerRow, oldName: string, newName: string)
    requires SlashFree(oldName)
    requires IsSnapshotOf(a, oldName) && IsSnapshotOf(b, oldName)
    ensures Moved(a, oldName, newName) == Moved(b, oldName, newName) <==> Base(a.name) == Base(b.name)
  {
    UnderOne(a.name, oldName, oldName);
    UnderOne(b.name, oldName, oldName);
    if Base(a.name) != Base(b.name) { SamePrefix(newName + "/", Base(a.name), Base(b.name)); }
  }

  // A rename clashes exactly when two snapshots end in the same element, or a row
  // is already under the new name with the last element of one of them.
  lemma ClashesExactly(db: Db, oldName: string, newName: string)
    requires SlashFree(oldName) && SlashFree(newName) && oldName != newName
    ensures Clashes(db.containers.rows, oldName, newName) <==>
              || SharesElement(db.containers.rows, oldName)
              || exists i :: i in db.containers.rows && IsSnapshotOf(db.containers.rows[i], oldName)
                             && HasName(db, newName + "/" + Base(db.containers.rows[i].name))
  {
    var rows := db.containers.rows;
    forall i, j | i in rows && j in rows && IsSnapshotOf(rows[i], oldName) && IsSnapshotOf(rows[j], oldName)
      ensures Moved(rows[i], oldName, newName) == Moved(rows[j], oldName, newName) <==>
              Base(rows[i].name) == Base(rows[j].name)
    {
      MovesByElement(rows[i], rows[j], oldName, newName);
    }
    if Clashes(rows, oldName, newName) {
      var i :| ClashesAt(rows, oldName, newName, i);
      UnderOne(rows[i].name, oldName, oldName);
      var j :| j in rows && j != i && (rows[j].name == Moved(rows[i], oldName, newName)
                || (IsSnapshotOf(rows[j], oldName) &&
                    Moved(rows[j], oldName, newName) == Moved(rows[i], oldName, newName)));
      if rows[j].name != Moved(rows[i], oldName, newName) { assert ShareElement(rows, oldName, i, j); }
    }
    if i, j :| ShareElement(rows, oldName, i, j) {
      assert ClashesAt(rows, oldName, newName, i);
    }
    if i :| i in rows && IsSnapshotOf(rows[i], oldName) && HasName(db, newName + "/" + Base(rows[i].name)) {
      MovedUnder(rows[i], oldName, newName);
      UnderOne(rows[i].name, oldName, oldName);
      assert ClashesAt(rows, oldName, newName, i);
    }
  }

  // With slash-free snapshot names, a rename clashes exactly when rows of the same
  // snapshot names are already there under the new name.
  lemma PlainClashesExactly(db: Db, oldName: string, newName: string)
    requires UniqueNames(db.containers.rows)
    requires SlashFree(oldName) && SlashFree(newName) && oldName != "" && oldName != newName
    requires PlainSnapshots(db, oldName)
    ensures Clashes(db.containers.rows, oldName, newName) <==>
              exists i :: i in db.containers.rows && IsSnapshotOf(db.containers.rows[i], oldName)
                          && HasName(db, newName + "/" + SnapName(db.containers.rows[i], oldName))
  {
    var rows := db.containers.rows;
    forall i | i in rows && IsSnapshotOf(rows[i], oldName)
      ensures Moved(rows[i], oldName, newName) == newName + "/" + SnapName(rows[i], oldName)
    {
      PlainMoves(rows[i], oldName, newName);
    }
    forall i, j | i in rows && j in rows && i != j && IsSnapshotOf(rows[i], oldName) && IsSnapshotOf(rows[j], oldName)
      ensures Moved(rows[i], oldName, newName) != Moved(rows[j], oldName, newName)
    {
      UnderOne(rows[i].name, oldName, oldName);
      UnderOne(rows[j].name, oldName, oldName);
      UnderFirstSlash(rows[i].name, oldName);
      UnderFirstSlash(rows[j].name, oldName);
      SamePrefix(newName + "/", SnapName(rows[i], oldName), SnapName(rows[j], oldName));
    }
    if Clashes(rows, oldName, newName) {
      var i :| ClashesAt(rows, oldName, newName, i);
      assert HasName(db, newName + "/" + SnapName(rows[i], oldName));
    }
    if i :| i in rows && IsSnapshotOf(rows[i], oldName) && HasName(db, newName + "/" + SnapName(rows[i], oldName)) {
      MovedUnder(rows[i], oldName, newName);
      var j :| j in rows && rows[j].name == Moved(rows[i], oldName, newName);
      assert j != i;
      assert ClashesAt(rows, oldName, newName, i);
    }
  }

  lemma BaseAfterSlash(dir: string, s: string)
    requires s != "" && SlashFree(s)
    ensures Base(dir + "/" + s) == s
  {
    var path := dir + "/" + s;
    assert path[|path| - 1] == s[|s| - 1] && s[|s| - 1] in s;
    LastElementAfterSlash(dir, s);
  }

  // Snapshots x/`snap` and `snap` both move to `snap`, with no row under the new
  // name: nobody checks the names of snapshots.
  lemma SlashedNamesClash(rows: map<int, ContainerRow>, oldName: string, newName: string, x: string, snap: string,
                          i: int, j: int)
    requires SlashFree(oldName) && SlashFree(newName) && oldName != "" && oldName != newName
    requires snap != "" && SlashFree(snap)
    requires i in rows && rows[i].ctype == Snapshot && rows[i].name == oldName + "/" + (x + "/" + snap)
    requires j in rows && rows[j].ctype == Snapshot && rows[j].name == oldName + "/" + snap
    ensures Clashes(rows, oldName, newName)
  {
    SamePrefix(oldName + "/", x + "/" + snap, snap);
    BaseIsSnapshotName(oldName, snap);
    BaseAfterSlash(oldName + "/" + x, snap);
    assert rows[i].name == oldName + "/" + x + "/" + snap;
    MovesByElement(rows[i], rows[j], oldName, newName);
    assert ClashesAt(rows, oldName, newName, i);
  }

  // So does a snapshot with the row of one that is left under the new name, where
  // there is no container.
  lemma OrphanClashes(rows: map<int, ContainerRow>, oldName: string, newName: string, snap: string, i: int, j: int)
    requires SlashFree(oldName) && SlashFree(newName) && oldName != "" && oldName != newName
    requires snap != "" && SlashFree(snap)
    requires i in rows && rows[i].ctype == Snapshot && rows[i].name == oldName + "/" + snap
    requires j in rows && rows[j].name == newName + "/" + snap
    ensures Clashes(rows, oldName, newName)
  {
    BaseIsSnapshotName(oldName, snap);
    UnderOne(rows[i].name, oldName, oldName);
    if i == j { UnderOne(rows[i].name, oldName, newName); }
    assert ClashesAt(rows, oldName, newName, i);
  }

  // A database with a container and two snapshot rows, and nothing else.
  function SmallDb(name: string, snapshot: string, other: string): Db {
    Db(Table(map[0 := ContainerRow(name, "", 1, Regular, false, false),
                 1 := ContainerRow(snapshot, "", 1, Snapshot, false, false),
                 2 := ContainerRow(other, "", 1, Snapshot, false, false)], 3),
       Table(map[], 0), Table(map[], 0), Table(map[], 0), Table(map[], 0), map[])
  }

  lemma SmallDbIsValid(name: string, snapshot: string, other: string)
    requires name != snapshot && name != other && snapshot != other
    requires ValidHostname(name)
    ensures Valid(SmallDb(name, snapshot, other)) && HostNames(SmallDb(name, snapshot, other))
  {
    var rows := SmallDb(name, snapshot, other).containers.rows;
    assert rows.Keys == {0, 1, 2};
  }

  // Both happen: container "a" cannot become "c", and some of its rows have moved.
  lemma SomeSlashedNamesClash()
    ensures var db := SmallDb("a", "a/x/b", "a/b");
            Valid(db) && HostNames(db) && Clashes(db.containers.rows, "a", "c")
  {
    SmallDbIsValid("a", "a/x/b", "a/b");
    assert "a/x/b" == "a" + "/" + ("x" + "/" + "b");
    SlashedNamesClash(SmallDb("a", "a/x/b", "a/b").containers.rows, "a", "c", "x", "b", 1, 2);
  }

  lemma SomeOrphanClashes()
    ensures var db := SmallDb("a", "a/b", "c/b");
            Valid(db) && HostNames(db) && Clashes(db.containers.rows, "a", "c")
  {
    SmallDbIsValid("a", "a/b", "c/b");
    OrphanClashes(SmallDb("a", "a/b", "c/b").containers.rows, "a", "c", "b", 1, 2);
  }

  lemma RowMoved(row: ContainerRow, row': ContainerRow, oldName: string, newName: string)
    requires SlashFree(oldName) && SlashFree(newName) && oldName != "" && oldName != newName
    requires row' == row.(name := Moved(row, oldName, newName))
    requires IsSnapshotOf(row, oldName) ==> SnapName(row, oldName) != "" && SlashFree(SnapName(row, oldName))
    ensures row'.name != oldName
    ensures row'.ctype == Snapshot ==> !Under(row'.name, oldName)
    ensures IsSnapshotOf(row', newName) <==> IsSnapshotOf(row, oldName) || IsSnapshotOf(row, newName)
    ensures IsSnapshotOf(row, oldName) ==> row'.name == newName + "/" + SnapName(row, oldName)
  {
    if IsSnapshotOf(row, oldName) {
      MovedUnder(row, oldName, newName);
      PlainMoves(row, oldName, newName);
    } else if row.name == oldName {
      if Under(newName, oldName) { UnderFirstSlash(newName, oldName); }
      if Under(newName, newName) { UnderFirstSlash(newName, newName); }
      if Under(row.name, newName) { UnderFirstSlash(row.name, newName); }
    }
  }

  // Afterwards nothing is left under the old name, the snapshots are under the
  // new one with their own names, next to those that were there, and every reading
  // is the old one under the moved name.
  lemma RenameMovesEverything(a: Db, b: Db, oldName: string, newName: string)
    requires Valid(a)
    requires SlashFree(oldName) && SlashFree(newName) && oldName != "" && oldName != newName
    requires PlainSnapshots(a, oldName)
    requires b == a.(containers := a.containers.(rows := b.containers.rows))
    requires Moving(a.containers.rows, b.containers.rows, oldName, newName, {})
    ensures !HasName(b, oldName)
    ensures forall i :: i in b.containers.rows && b.containers.rows[i].ctype == Snapshot ==>
              !Under(b.containers.rows[i].name, oldName)
    ensures forall i :: i in b.containers.rows ==>
              (IsSnapshotOf(b.containers.rows[i], newName) <==>
                 IsSnapshotOf(a.containers.rows[i], oldName) || IsSnapshotOf(a.containers.rows[i], newName))
    ensures forall i :: i in b.containers.rows && IsSnapshotOf(a.containers.rows[i], oldName) ==>
              b.containers.rows[i].name == newName + "/" + SnapName(a.containers.rows[i], oldName)
    ensures forall i, args :: StoresAt(a, i, args) ==>
              StoresAt(b, i, args.(name := Moved(a.containers.rows[i], oldName, newName)))
  {
    forall i | i in b.containers.rows
      ensures b.containers.rows[i].name != oldName
      ensures b.containers.rows[i].ctype == Snapshot ==> !Under(b.containers.rows[i].name, oldName)
      ensures IsSnapshotOf(b.containers.rows[i], newName) <==>
                IsSnapshotOf(a.containers.rows[i], oldName) || IsSnapshotOf(a.containers.rows[i], newName)
      ensures IsSnapshotOf(a.containers.rows[i], oldName) ==>
                b.containers.rows[i].name == newName + "/" + SnapName(a.containers.rows[i], oldName)
    {
      RowMoved(a.containers.rows[i], b.containers.rows[i], oldName, newName);
    }
    forall i, args | StoresAt(a, i, args)
      ensures StoresAt(b, i, args.(name := Moved(a.containers.rows[i], oldName, newName)))
    {
      var ls :| LinksName(a, i, ls, args.profiles);
      assert LinksName(b, i, ls, args.profiles);
    }
  }
}
