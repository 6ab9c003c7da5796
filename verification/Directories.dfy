/**
 * FilePath::CreateDirectoriesRecursively over a file system whose directories
 * are known by their normalized names, each ending in a separator.
 */
module Directories {
  import opened FilePath

  /** RemoveTrailingPathSeparator().RemoveFileName() */
  function Parent(p: Path): (q: Path)
    ensures IsDirectory(q)
  {
    DirectoryPart(WithoutTrailingSeparator(p))
  }

  const ROOT: Path := "/"
  const HERE: Path := "./"

  /** Parents need not get shorter: "a/" has the parent "./", which is its own parent, as is that of "/". */
  lemma ParentsNeedNotGetShorter()
    ensures Parent("a/") == HERE && |HERE| == |"a/"| && Parent(HERE) == HERE && Parent(ROOT) == HERE
  {
    assert "a/"[..1] == "a" && "a"[..0] == "" && "./"[..1] == "." && "."[..0] == "" && "/"[..0] == "";
  }

  /** What does get smaller on the way up, until a directory that always exists. */
  function Height(p: Path): nat { if p == HERE then 0 else |p| }

  lemma ParentIsLower(p: Path)
    requires IsDirectory(p) && p != HERE && p != ROOT
    ensures Height(Parent(p)) < Height(p)
  {
    var q := WithoutTrailingSeparator(p);
    assert q[|q| - 1] == p[|p| - 2];
    assert forall i :: 0 <= i < |p| - 1 ==> !(p[i] == SEP && p[i + 1] == SEP);
  }

  /** A parent is shorter exactly when the name has more than two characters; "/", "./" and "a/" have not. */
  lemma ParentIsShorter(p: Path)
    requires IsDirectory(p)
    ensures |Parent(p)| < |p| <==> |p| > 2
  {
    var q := WithoutTrailingSeparator(p);
    DirectoryPartCuts(q);
    if SEP in q {
      var i :| 0 <= i < |q| && q[i] == SEP;
      assert p[i] == SEP && !(p[i] == SEP && p[i + 1] == SEP);
    }
  }

  lemma BelowDirectory(front: string, name: string)
    requires name != "" && SEP !in name
    ensures Components(front + [SEP] + name) == Components(front) + [name]
    ensures Components(front + [SEP]) == Components(front)
  {
    ComponentsSplit("", front, name);
    assert "" + name == name;
    OneComponent("", name);
    ComponentsSplit("", front, "");
    assert front + [SEP] + "" == front + [SEP];
  }

  /** A path with a separator inside, cut at the last one. */
  lemma CutAtLast(q: Path) returns (front: string, name: string)
    requires SEP in q && q[|q| - 1] != SEP
    ensures q == front + [SEP] + name && DirectoryPart(q) == front + [SEP] && name != "" && SEP !in name
    ensures front == "" ==> q[0] == SEP
  {
    DirectoryPartCuts(q);
    var n := |DirectoryPart(q)|;
    front, name := q[..n - 1], q[n..];
    assert q[n - 1] == DirectoryPart(q)[n - 1] == SEP;
    assert DirectoryPart(q) == q[..n];
  }

  lemma ParentOfNested(p: Path, q: Path)
    requires IsDirectory(p) && q == WithoutTrailingSeparator(p) && SEP in q && q[|q| - 1] != SEP
    ensures var names := Components(q);
            names != [] && (p[0] == SEP || |names| > 1) && Components(Parent(p)) == names[..|names| - 1]
  {
    var front, name := CutAtLast(q);
    BelowDirectory(front, name);
    assert Components(q)[..|Components(front)|] == Components(front);
    if |Components(front)| == 0 {
      FirstComponent(front);
    }
  }

  /** The parent has all the components but the last; "./" stands in where there is only one and the path is relative. */
  lemma ParentDropsLastComponent(p: Path)
    requires IsDirectory(p) && p != ROOT
    ensures var names := Components(p);
            && names != []
            && if p[0] == SEP || |names| > 1 then Components(Parent(p)) == names[..|names| - 1] else Parent(p) == HERE
  {
    var q := WithoutTrailingSeparator(p);
    TrailingSeparatorAddsNothing(p);
    assert q[|q| - 1] == p[|p| - 2] && p[|p| - 1] == SEP;
    if SEP in q {
      ParentOfNested(p, q);
    } else {
      DirectoryPartCuts(q);
      assert "" + q == q && q[0] in q;
      OneComponent("", q);
    }
  }

  lemma FirstComponent(s: string)
    requires Components(s) == []
    ensures s == "" || s[0] == SEP
  {
    if s != "" && s[0] != SEP {
      assert "" + [s[0]] == [s[0]];
      SomeComponent([s[0]], s[1..]);
    }
  }

  lemma {:induction false} SomeComponent(name: string, s: string)
    requires name != ""
    ensures ComponentsFrom(name, s) != []
    decreases |s|
  {
    if s != "" && s[0] != SEP {
      SomeComponent(name + [s[0]], s[1..]);
    }
  }

  /** The directory and all the directories above it, topmost first. */
  function Ancestry(p: Path): seq<Path>
    requires IsDirectory(p)
    decreases Height(p)
  {
    if p == HERE || p == ROOT then [p]
    else
      ParentIsLower(p);
      Ancestry(Parent(p)) + [p]
  }

  /** Directories are in existing directories. */
  ghost predicate Closed(dirs: set<Path>) {
    && (forall d <- dirs :: IsDirectory(d))
    && (forall d {:trigger Parent(d)} :: d in dirs ==> Parent(d) in dirs)
  }

  /** The file system: the directories that exist. */
  class FileSystem {
    var dirs: set<Path>
    var permits: Path -> bool  // whether mkdir may make this directory, as far as permissions, space and the like go

    /** The current directory and the root exist, and directories are in existing directories. */
    ghost predicate Valid()
      reads this
    {
      HERE in dirs && ROOT in dirs && Closed(dirs)
    }

    /** mkdir(2) */
    method Mkdir(p: Path) returns (result: int)
      requires Valid() && IsDirectory(p)
      modifies this`dirs
      ensures Valid() && result == if p !in old(dirs) && Parent(p) in old(dirs) && permits(p) then 0 else -1
      ensures dirs == if result == 0 then old(dirs) + {p} else old(dirs)
    {
      if p in dirs || Parent(p) !in dirs || !permits(p) {
        return -1;
      }
      dirs := dirs + {p};
      return 0;
    }

    method CreateFolder(p: Path) returns (ok: bool)
      requires Valid() && IsDirectory(p)
      modifies this`dirs
      ensures Valid() && (ok <==> p in old(dirs) || (Parent(p) in old(dirs) && permits(p)))
      ensures dirs == if ok then old(dirs) + {p} else old(dirs)
    {
      var result := Mkdir(p);
      if result == -1 {
        return p in dirs;
      }
      return true;
    }

    /** When a directory exists, so does everything above it. */
    lemma ExistsWithAncestry(p: Path)
      requires Valid() && p in dirs
      ensures IsDirectory(p) && forall a <- Ancestry(p) :: a in dirs
    {
      AncestryExists(p, dirs);
    }

    /**
     * Ends although parents need not be shorter; makes the missing directories
     * from the topmost down as far as each may be made; and answers true exactly
     * when that is all of them.
     */
    method CreateDirectoriesRecursively(p: Path) returns (ok: bool, ghost created: seq<Path>)
      requires Valid()
      modifies this`dirs
      ensures Valid() && dirs == old(dirs) + Elements(created)
      ensures if IsDirectory(p) then IsPermittedPart(created, Missing(p, old(dirs)), permits) else created == []
      ensures ok <==> IsDirectory(p) && AllPermitted(Missing(p, old(dirs)), permits)
      ensures ok ==> p in dirs
      decreases Height(p)
    {
      created := [];
      if !IsDirectory(p) {
        return false, created;
      }
      if p in dirs {
        return true, created;
      }
      ParentIsLower(p);
      ghost var above := Missing(Parent(p), dirs);
      NotMissingAbove(p, dirs);
      ok, created := CreateDirectoriesRecursively(Parent(p));
      OneMorePermitted(created, above, p, permits);
      NotCreated(created, above, p);
      if ok {
        ok := CreateFolder(p);
        created := MissingOne(above, p, ok);
      }
    }
  }

  predicate AllPermitted(all: seq<Path>, permits: Path -> bool) { forall i :: 0 <= i < |all| ==> permits(all[i]) }

  /** The longest part of the list, from its beginning, all of which is permitted. */
  predicate IsPermittedPart(part: seq<Path>, all: seq<Path>, permits: Path -> bool) {
    part <= all && AllPermitted(part, permits) && (|part| < |all| ==> !permits(all[|part|]))
  }

  lemma OneMorePermitted(part: seq<Path>, all: seq<Path>, p: Path, permits: Path -> bool)
    requires IsPermittedPart(part, all, permits)
    ensures AllPermitted(all, permits) <==> part == all
    ensures AllPermitted(all + [p], permits) <==> part == all && permits(p)
    ensures IsPermittedPart(if part == all && permits(p) then all + [p] else part, all + [p], permits)
  {
    assert |part| < |all| ==> (all + [p])[|part|] == all[|part|];
    assert (all + [p])[|all|] == p;
  }

  function Elements(s: seq<Path>): set<Path> { set d | d in s }

  /** What has been made in the end, where all above was. */
  ghost function MissingOne(above: seq<Path>, p: Path, ok: bool): (created: seq<Path>)
    ensures Elements(created) == if ok then Elements(above) + {p} else Elements(above)
  {
    ElementsAppend(above, p);
    if ok then above + [p] else above
  }

  lemma NotCreated(created: seq<Path>, all: seq<Path>, p: Path)
    requires created <= all && forall i :: 0 <= i < |all| ==> all[i] != p
    ensures p !in Elements(created)
  {
  }

  lemma ElementsAppend(s: seq<Path>, p: Path)
    ensures Elements(s + [p]) == Elements(s) + {p}
  {
  }

  /** The directories of the ancestry that are missing, topmost first. */
  ghost function Missing(p: Path, dirs: set<Path>): (m: seq<Path>)
    requires IsDirectory(p) && HERE in dirs && ROOT in dirs
    decreases Height(p)
  {
    if p in dirs then []
    else
      ParentIsLower(p);
      Missing(Parent(p), dirs) + [p]
  }

  /** Missing says what its name says, when directories are in existing directories. */
  lemma {:induction false} MissingIsMissing(p: Path, dirs: set<Path>, a: Path)
    requires IsDirectory(p) && HERE in dirs && ROOT in dirs && Closed(dirs)
    ensures a in Missing(p, dirs) <==> a in Ancestry(p) && a !in dirs
    decreases Height(p)
  {
    if p == HERE || p == ROOT {
    } else if p in dirs {
      AncestryExists(p, dirs);
    } else {
      ParentIsLower(p);
      MissingIsMissing(Parent(p), dirs, a);
    }
  }

  /** A missing directory is not missing above itself. */
  lemma NotMissingAbove(p: Path, dirs: set<Path>)
    requires IsDirectory(p) && HERE in dirs && ROOT in dirs && Closed(dirs) && p !in dirs
    ensures forall i :: 0 <= i < |Missing(Parent(p), dirs)| ==> Missing(Parent(p), dirs)[i] != p
  {
    MissingIsMissing(Parent(p), dirs, p);
    NotAboveItself(p);
  }

  lemma {:induction false} AncestryExists(p: Path, dirs: set<Path>)
    requires IsDirectory(p) && Closed(dirs)
    ensures p in dirs ==> forall a <- Ancestry(p) :: a in dirs
    decreases Height(p)
  {
    if p != HERE && p != ROOT {
      ParentIsLower(p);
      AncestryExists(Parent(p), dirs);
    }
  }

  lemma {:induction false} AboveIsLower(p: Path, a: Path)
    requires IsDirectory(p) && a in Ancestry(p)
    ensures Height(a) <= Height(p) || a == ROOT
    decreases Height(p)
  {
    if p != HERE && p != ROOT && a != p {
      ParentIsLower(p);
      AboveIsLower(Parent(p), a);
    }
  }

  /** A directory is not among those above it. */
  lemma NotAboveItself(p: Path)
    requires IsDirectory(p) && p != HERE && p != ROOT
    ensures p !in Ancestry(Parent(p))
  {
    ParentIsLower(p);
    if p in Ancestry(Parent(p)) {
      AboveIsLower(Parent(p), p);
    }
  }

  /** In the ancestry every directory but the first comes right after its parent. */
  lemma {:induction false} ParentsComeFirst(p: Path, i: nat)
    requires IsDirectory(p) && 0 < i < |Ancestry(p)|
    ensures Parent(Ancestry(p)[i]) == Ancestry(p)[i - 1]
    decreases Height(p)
  {
    ParentIsLower(p);
    if i < |Ancestry(p)| - 1 {
      ParentsComeFirst(Parent(p), i);
    }
  }
}
