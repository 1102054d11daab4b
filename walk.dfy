// walk of main.c: the depth-first expansion of a directory into the regular
// files beneath it, over an abstract directory tree instead of
// opendir/readdir/closedir, and the walk of "." with which run starts.

module Walker {
  import opened Paths
  import opened StrLists
  import opened Seqs

  /**
   * A directory entry as readdir reports it. Reg is d_type DT_REG, Dir is
   * DT_DIR, Other every other d_type (symbolic links, devices, sockets, FIFOs,
   * DT_UNKNOWN), which walk neither records nor follows.
   */
  datatype Entry =
    | Reg(name: string)
    | Dir(name: string, listing: Listing)
    | Other(name: string)

  /**
   * What opendir/readdir yield for a directory: its entries in readdir order
   * (the "." and ".." pseudo-entries included, as readdir reports them), or
   * Unopenable when opendir fails.
   */
  datatype Listing =
    | Opened(entries: seq<Entry>)
    | Unopenable

  predicate IsDotOrDotDot(name: string)
  {
    name == "." || name == ".."
  }

  /** The paths walk appends to flist for the directory at path. */
  function WalkFiles(path: string, listing: Listing, excludes: seq<string>): (r: seq<string>)
    ensures IsExcluded(path, excludes) || listing.Unopenable? ==> r == []
    ensures !IsExcluded(path, excludes) && listing.Opened? ==> r == EntriesFiles(path, listing.entries, excludes)
    ensures forall p | p in r :: !IsExcluded(p, excludes)
    decreases listing
  {
    if IsExcluded(path, excludes) then []
    else match listing
      case Unopenable => []
      case Opened(entries) => EntriesFiles(path, entries, excludes)
  }

  /** The paths walk appends while reading `entries`, part of the listing of path. */
  function EntriesFiles(path: string, entries: seq<Entry>, excludes: seq<string>): (r: seq<string>)
    ensures forall p | p in r :: !IsExcluded(p, excludes)
    decreases entries
  {
    if entries == [] then []
    else EntryFiles(path, entries[0], excludes) + EntriesFiles(path, entries[1..], excludes)
  }

  /** The paths walk appends for the single entry e of directory path. */
  function EntryFiles(path: string, e: Entry, excludes: seq<string>): (r: seq<string>)
    ensures IsDotOrDotDot(e.name) || e.Other? ==> r == []
    ensures !IsDotOrDotDot(e.name) && e.Reg? ==>
      r == (if IsExcluded(ChildPath(path, e.name), excludes) then [] else [ChildPath(path, e.name)])
    ensures !IsDotOrDotDot(e.name) && e.Dir? ==> r == WalkFiles(ChildPath(path, e.name), e.listing, excludes)
    ensures forall p | p in r :: !IsExcluded(p, excludes)
    decreases e
  {
    if IsDotOrDotDot(e.name) then []
    else
      var p := ChildPath(path, e.name);
      match e
      case Dir(_, sub) => WalkFiles(p, sub, excludes)
      case Reg(_) => if IsExcluded(p, excludes) then [] else [p]
      case Other(_) => []
  }

  /**
   * Depth-first order: what walk appends for a run of entries is what it
   * appends for the first part followed by what it appends for the rest, so
   * everything beneath a subdirectory precedes every later sibling's files.
   */
  lemma {:induction false} EntriesFilesAppend(path: string, a: seq<Entry>, b: seq<Entry>, excludes: seq<string>)
    ensures EntriesFiles(path, a + b, excludes) == EntriesFiles(path, a, excludes) + EntriesFiles(path, b, excludes)
    decreases |a|
  {
    if a == [] {
      assert a + b == b;
    } else {
      assert (a + b)[1..] == a[1..] + b;
      EntriesFilesAppend(path, a[1..], b, excludes);
    }
  }

  /** Number of regular files walk reaches when nothing is excluded. */
  function RegCount(listing: Listing): nat
    decreases listing
  {
    match listing
    case Unopenable => 0
    case Opened(entries) => EntriesRegCount(entries)
  }

  function EntriesRegCount(entries: seq<Entry>): nat
    decreases entries
  {
    if entries == [] then 0
    else EntryRegCount(entries[0]) + EntriesRegCount(entries[1..])
  }

  function EntryRegCount(e: Entry): nat
    decreases e
  {
    if IsDotOrDotDot(e.name) then 0
    else match e
      case Reg(_) => 1
      case Dir(_, sub) => RegCount(sub)
      case Other(_) => 0
  }

  /** With an empty exclude list, walk records one path per reachable regular file. */
  lemma {:induction false} WalkFilesCount(path: string, listing: Listing)
    ensures |WalkFiles(path, listing, [])| == RegCount(listing)
    decreases listing
  {
    match listing
    case Unopenable =>
    case Opened(entries) => EntriesFilesCount(path, entries);
  }

  lemma {:induction false} EntriesFilesCount(path: string, entries: seq<Entry>)
    ensures |EntriesFiles(path, entries, [])| == EntriesRegCount(entries)
    decreases entries
  {
    if entries != [] {
      EntriesFilesCount(path, entries[1..]);
      EntryFilesCount(path, entries[0]);
    }
  }

  lemma {:induction false} EntryFilesCount(path: string, e: Entry)
    ensures |EntryFiles(path, e, [])| == EntryRegCount(e)
    decreases e
  {
    if !IsDotOrDotDot(e.name) {
      match e
      case Reg(_) =>
      case Dir(_, sub) => WalkFilesCount(ChildPath(path, e.name), sub);
      case Other(_) =>
    }
  }

  /**
   * Excluding paths only removes files: every path walk records under an
   * exclude list is one it records with no exclude list at all.
   */
  lemma {:induction false} WalkFilesSubset(path: string, listing: Listing, excludes: seq<string>)
    ensures forall p | p in WalkFiles(path, listing, excludes) :: p in WalkFiles(path, listing, [])
    decreases listing
  {
    if !IsExcluded(path, excludes) {
      match listing
      case Unopenable =>
      case Opened(entries) => EntriesFilesSubset(path, entries, excludes);
    }
  }

  lemma {:induction false} EntriesFilesSubset(path: string, entries: seq<Entry>, excludes: seq<string>)
    ensures forall p | p in EntriesFiles(path, entries, excludes) :: p in EntriesFiles(path, entries, [])
    decreases entries
  {
    if entries != [] {
      EntriesFilesSubset(path, entries[1..], excludes);
      EntryFilesSubset(path, entries[0], excludes);
    }
  }

  lemma {:induction false} EntryFilesSubset(path: string, e: Entry, excludes: seq<string>)
    ensures forall p | p in EntryFiles(path, e, excludes) :: p in EntryFiles(path, e, [])
    decreases e
  {
    if !IsDotOrDotDot(e.name) {
      match e
      case Reg(_) =>
      case Dir(_, sub) => WalkFilesSubset(ChildPath(path, e.name), sub, excludes);
      case Other(_) =>
    }
  }

  /**
   * Excluding paths only deletes paths from the walk: what walk records under
   * an exclude list is a subsequence of what it records with none, in the
   * same order and never repeated more often.
   */
  lemma {:induction false} WalkFilesSubsequence(path: string, listing: Listing, excludes: seq<string>)
    ensures IsSubsequence(WalkFiles(path, listing, excludes), WalkFiles(path, listing, []))
    decreases listing
  {
    if IsExcluded(path, excludes) || listing.Unopenable? {
      SubsequenceEmpty(WalkFiles(path, listing, []));
    } else {
      EntriesFilesSubsequence(path, listing.entries, excludes);
    }
  }

  lemma {:induction false} EntriesFilesSubsequence(path: string, entries: seq<Entry>, excludes: seq<string>)
    ensures IsSubsequence(EntriesFiles(path, entries, excludes), EntriesFiles(path, entries, []))
    decreases entries
  {
    if entries == [] {
      SubsequenceEmpty(EntriesFiles(path, entries, []));
    } else {
      EntryFilesSubsequence(path, entries[0], excludes);
      EntriesFilesSubsequence(path, entries[1..], excludes);
      SubsequenceAppend(EntryFiles(path, entries[0], excludes), EntryFiles(path, entries[0], []),
                        EntriesFiles(path, entries[1..], excludes), EntriesFiles(path, entries[1..], []));
    }
  }

  lemma {:induction false} EntryFilesSubsequence(path: string, e: Entry, excludes: seq<string>)
    ensures IsSubsequence(EntryFiles(path, e, excludes), EntryFiles(path, e, []))
    decreases e
  {
    if !IsDotOrDotDot(e.name) && e.Dir? {
      WalkFilesSubsequence(ChildPath(path, e.name), e.listing, excludes);
    } else if EntryFiles(path, e, excludes) == [] {
      SubsequenceEmpty(EntryFiles(path, e, []));
    } else {
      SubsequenceRefl(EntryFiles(path, e, []));
    }
  }

  /**
   * Which regular files the walk of directory `path` reaches, stated on the
   * tree rather than on the order of the walk: `path` is not excluded and can
   * be opened, and some entry of its listing reaches q.
   */
  ghost predicate Reaches(path: string, listing: Listing, excludes: seq<string>, q: string)
    decreases listing
  {
    !IsExcluded(path, excludes) && listing.Opened? &&
    exists e | e in listing.entries :: EntryReaches(path, e, excludes, q)
  }

  /**
   * Entry e of directory `path` reaches q when it is not "." or "..", and
   * either it is a regular file whose joined path is q and q is not excluded,
   * or it is a directory whose walk at its joined path reaches q.
   */
  ghost predicate EntryReaches(path: string, e: Entry, excludes: seq<string>, q: string)
    decreases e
  {
    !IsDotOrDotDot(e.name) &&
    match e
    case Reg(_) => q == ChildPath(path, e.name) && !IsExcluded(q, excludes)
    case Dir(_, sub) => Reaches(ChildPath(path, e.name), sub, excludes, q)
    case Other(_) => false
  }

  /**
   * walk records q exactly when q is the joined path of a regular file that is
   * not excluded, reached through directories that are not excluded and can be
   * opened.
   */
  lemma {:induction false} WalkFilesMembers(path: string, listing: Listing, excludes: seq<string>, q: string)
    ensures q in WalkFiles(path, listing, excludes) <==> Reaches(path, listing, excludes, q)
    decreases listing
  {
    if !IsExcluded(path, excludes) {
      match listing
      case Unopenable =>
      case Opened(entries) => EntriesFilesMembers(path, entries, excludes, q);
    }
  }

  lemma {:induction false} EntriesFilesMembers(path: string, entries: seq<Entry>, excludes: seq<string>, q: string)
    ensures q in EntriesFiles(path, entries, excludes) <==>
      exists e | e in entries :: EntryReaches(path, e, excludes, q)
    decreases entries
  {
    if entries != [] {
      EntryFilesMembers(path, entries[0], excludes, q);
      EntriesFilesMembers(path, entries[1..], excludes, q);
      assert entries == [entries[0]] + entries[1..];
    }
  }

  lemma {:induction false} EntryFilesMembers(path: string, e: Entry, excludes: seq<string>, q: string)
    ensures q in EntryFiles(path, e, excludes) <==> EntryReaches(path, e, excludes, q)
    decreases e
  {
    if !IsDotOrDotDot(e.name) {
      match e
      case Reg(_) =>
      case Dir(_, sub) => WalkFilesMembers(ChildPath(path, e.name), sub, excludes, q);
      case Other(_) =>
    }
  }

  /** p extends `dir` by a '/' and at least one more character position. */
  predicate Beneath(p: string, dir: string)
  {
    |p| > |dir| && p[..|dir| + 1] == dir + "/"
  }

  /**
   * Below any directory other than ".", the joined paths keep the directory's
   * path as a prefix: every path walk records starts with path + "/".
   */
  lemma {:induction false} WalkFilesBeneath(path: string, listing: Listing, excludes: seq<string>)
    requires path != "." && !StartsWithDotSlash(path)
    ensures forall p | p in WalkFiles(path, listing, excludes) :: Beneath(p, path)
    decreases listing
  {
    if !IsExcluded(path, excludes) {
      match listing
      case Unopenable =>
      case Opened(entries) => EntriesFilesBeneath(path, entries, excludes);
    }
  }

  lemma {:induction false} EntriesFilesBeneath(path: string, entries: seq<Entry>, excludes: seq<string>)
    requires path != "." && !StartsWithDotSlash(path)
    ensures forall p | p in EntriesFiles(path, entries, excludes) :: Beneath(p, path)
    decreases entries
  {
    if entries != [] {
      EntriesFilesBeneath(path, entries[1..], excludes);
      EntryFilesBeneath(path, entries[0], excludes);
    }
  }

  lemma {:induction false} EntryFilesBeneath(path: string, e: Entry, excludes: seq<string>)
    requires path != "." && !StartsWithDotSlash(path)
    ensures forall p | p in EntryFiles(path, e, excludes) :: Beneath(p, path)
    decreases e
  {
    if !IsDotOrDotDot(e.name) {
      var c := ChildPath(path, e.name);
      assert c == path + "/" + e.name;
      assert Beneath(c, path) by {
        assert c[..|path| + 1] == path + "/";
      }
      match e
      case Reg(_) =>
      case Dir(_, sub) =>
        assert c != "." && !StartsWithDotSlash(c) by {
          if |path| == 0 {
            assert c[0] == '/';
          } else if |path| == 1 {
            assert c[0] == path[0] && path[0] != '.';
          } else {
            assert c[0] == path[0] && c[1] == path[1];
          }
        }
        WalkFilesBeneath(c, sub, excludes);
        forall p | p in WalkFiles(c, sub, excludes)
          ensures Beneath(p, path)
        {
          assert Beneath(p, c);
          assert p[..|path| + 1] == p[..|c|][..|path| + 1];
        }
      case Other(_) =>
    }
  }

  /** A name readdir can report: not empty and without a '/'. */
  predicate PlainName(name: string)
  {
    |name| > 0 && '/' !in name
  }

  /**
   * Children of "." carry no "./" prefix: when the names directly under "."
   * are plain, no path the walk of "." records starts with "./".
   */
  lemma {:induction false} WalkDotNoDotSlash(entries: seq<Entry>, excludes: seq<string>)
    requires forall e | e in entries :: PlainName(e.name)
    ensures forall p | p in WalkFiles(".", Opened(entries), excludes) :: !StartsWithDotSlash(p)
  {
    if !IsExcluded(".", excludes) {
      EntriesDotNoDotSlash(entries, excludes);
    }
  }

  lemma {:induction false} EntriesDotNoDotSlash(entries: seq<Entry>, excludes: seq<string>)
    requires forall e | e in entries :: PlainName(e.name)
    ensures forall p | p in EntriesFiles(".", entries, excludes) :: !StartsWithDotSlash(p)
    decreases |entries|
  {
    if entries != [] {
      assert entries[0] in entries;
      EntryDotNoDotSlash(entries[0], excludes);
      assert forall e | e in entries[1..] :: e in entries;
      EntriesDotNoDotSlash(entries[1..], excludes);
    }
  }

  lemma EntryDotNoDotSlash(e: Entry, excludes: seq<string>)
    requires PlainName(e.name)
    ensures forall p | p in EntryFiles(".", e, excludes) :: !StartsWithDotSlash(p)
  {
    var name := e.name;
    if !IsDotOrDotDot(name) {
      assert ChildPath(".", name) == name;
      assert !StartsWithDotSlash(name) by {
        if |name| >= 2 {
          assert name[1] in name;
        }
      }
      match e
      case Reg(_) =>
      case Dir(_, sub) =>
        WalkFilesBeneath(name, sub, excludes);
        forall p | p in WalkFiles(name, sub, excludes)
          ensures !StartsWithDotSlash(p)
        {
          assert p[..|name| + 1] == name + "/";
          if |name| == 1 {
            assert p[0] == name[0];
            assert name == [name[0]];
          } else {
            assert p[1] == name[1] && name[1] in name;
          }
        }
      case Other(_) =>
    }
  }

  /**
   * A directory tree as a file system presents it: in every listing the names
   * are distinct, non-empty and free of '/'.
   */
  ghost predicate WellNamed(listing: Listing)
    decreases listing
  {
    listing.Opened? ==>
      (forall i, j | 0 <= i < j < |listing.entries| :: listing.entries[i].name != listing.entries[j].name) &&
      (forall e | e in listing.entries :: PlainName(e.name)) &&
      (forall e | e in listing.entries :: e.Dir? ==> WellNamed(e.listing))
  }

  /** What walk puts in front of an entry's name: nothing under ".", else path + "/". */
  function ChildPrefix(path: string): string
  {
    if path == "." then "" else path + "/"
  }

  /** q is the path c itself or a path beneath it. */
  predicate Under(q: string, c: string)
  {
    q == c || Beneath(q, c)
  }

  /** The joined path of a non-dot plain name is its prefix and name, and is a plain path again. */
  lemma ChildPathShape(path: string, name: string)
    requires !StartsWithDotSlash(path) && PlainName(name) && !IsDotOrDotDot(name)
    ensures ChildPath(path, name) == ChildPrefix(path) + name
    ensures ChildPath(path, name) != "." && !StartsWithDotSlash(ChildPath(path, name))
  {
    var c := ChildPath(path, name);
    if path == "." {
      assert c == name;
      if |name| >= 2 {
        assert name[1] in name;
      }
    } else {
      assert c == path + "/" + name;
      if |path| == 0 {
        assert c[0] == '/';
      } else if |path| == 1 {
        assert c[0] == path[0] && c[1] == '/';
      } else {
        assert c[0] == path[0] && c[1] == path[1];
      }
    }
  }

  /** A path under c starts with c, and continues, if at all, with '/'. */
  lemma UnderPrefix(q: string, c: string)
    requires Under(q, c)
    ensures |q| >= |c| && q[..|c|] == c
    ensures |q| > |c| ==> q[|c|] == '/'
  {
    if q != c {
      assert q[..|c|] == q[..|c| + 1][..|c|];
      assert q[|c|] == q[..|c| + 1][|c|];
    }
  }

  /** Paths under two distinct plain names of one directory are never equal. */
  lemma UnderDistinct(prefix: string, n1: string, n2: string, q: string)
    requires PlainName(n1) && PlainName(n2) && n1 != n2
    requires Under(q, prefix + n1)
    ensures !Under(q, prefix + n2)
  {
    var c1, c2 := prefix + n1, prefix + n2;
    UnderPrefix(q, c1);
    assert n1 == c1[|prefix|..] && n2 == c2[|prefix|..];
    if |n1| < |n2| {
      assert c2[|c1|] == n2[|n1|] && n2[|n1|] in n2;
    }
    if |n2| < |n1| {
      assert c1[|c2|] == n1[|n2|] && n1[|n2|] in n1;
    }
    if Under(q, c2) {
      UnderPrefix(q, c2);
      assert false;
    }
  }

  /** Every path recorded for a plain entry lies under its joined path. */
  lemma EntryFilesUnder(path: string, e: Entry, excludes: seq<string>)
    requires !StartsWithDotSlash(path) && PlainName(e.name)
    ensures forall q | q in EntryFiles(path, e, excludes) :: Under(q, ChildPrefix(path) + e.name)
  {
    if !IsDotOrDotDot(e.name) {
      ChildPathShape(path, e.name);
      if e.Dir? {
        WalkFilesBeneath(ChildPath(path, e.name), e.listing, excludes);
      }
    }
  }

  lemma {:induction false} EntriesFilesUnder(path: string, entries: seq<Entry>, excludes: seq<string>)
    requires !StartsWithDotSlash(path)
    requires forall e | e in entries :: PlainName(e.name)
    ensures forall q | q in EntriesFiles(path, entries, excludes) ::
      exists k | 0 <= k < |entries| :: Under(q, ChildPrefix(path) + entries[k].name)
    decreases |entries|
  {
    if entries != [] {
      assert entries[0] in entries;
      EntryFilesUnder(path, entries[0], excludes);
      assert forall e | e in entries[1..] :: e in entries;
      EntriesFilesUnder(path, entries[1..], excludes);
      forall q | q in EntriesFiles(path, entries[1..], excludes)
        ensures exists k | 0 <= k < |entries| :: Under(q, ChildPrefix(path) + entries[k].name)
      {
        var k :| 0 <= k < |entries[1..]| && Under(q, ChildPrefix(path) + entries[1..][k].name);
        assert entries[1..][k] == entries[k + 1];
      }
    }
  }

  /**
   * On a well-named tree walk records no path twice, whatever is excluded,
   * starting from "." or any path that does not begin with "./".
   */
  lemma {:induction false} WalkFilesNoDuplicates(path: string, listing: Listing, excludes: seq<string>)
    requires !StartsWithDotSlash(path) && WellNamed(listing)
    ensures NoDuplicates(WalkFiles(path, listing, excludes))
    decreases listing
  {
    if !IsExcluded(path, excludes) && listing.Opened? {
      EntriesFilesNoDuplicates(path, listing.entries, excludes);
    }
  }

  lemma {:induction false} EntriesFilesNoDuplicates(path: string, entries: seq<Entry>, excludes: seq<string>)
    requires !StartsWithDotSlash(path)
    requires forall i, j | 0 <= i < j < |entries| :: entries[i].name != entries[j].name
    requires forall e | e in entries :: PlainName(e.name)
    requires forall e | e in entries :: e.Dir? ==> WellNamed(e.listing)
    ensures NoDuplicates(EntriesFiles(path, entries, excludes))
    decreases entries
  {
    if entries != [] {
      var first, rest := entries[0], entries[1..];
      assert first in entries;
      assert forall e | e in rest :: e in entries;
      assert forall i, j | 0 <= i < j < |rest| :: rest[i] == entries[i + 1] && rest[j] == entries[j + 1];
      EntryFilesNoDuplicates(path, first, excludes);
      EntriesFilesNoDuplicates(path, rest, excludes);
      EntryFilesUnder(path, first, excludes);
      EntriesFilesUnder(path, rest, excludes);
      forall q | q in EntryFiles(path, first, excludes)
        ensures q !in EntriesFiles(path, rest, excludes)
      {
        if q in EntriesFiles(path, rest, excludes) {
          var k :| 0 <= k < |rest| && Under(q, ChildPrefix(path) + rest[k].name);
          assert rest[k] == entries[k + 1] && rest[k] in entries;
          UnderDistinct(ChildPrefix(path), first.name, rest[k].name, q);
        }
      }
      NoDuplicatesAppend(EntryFiles(path, first, excludes), EntriesFiles(path, rest, excludes));
    }
  }

  lemma {:induction false} EntryFilesNoDuplicates(path: string, e: Entry, excludes: seq<string>)
    requires !StartsWithDotSlash(path) && PlainName(e.name)
    requires e.Dir? ==> WellNamed(e.listing)
    ensures NoDuplicates(EntryFiles(path, e, excludes))
    decreases e
  {
    if !IsDotOrDotDot(e.name) && e.Dir? {
      ChildPathShape(path, e.name);
      WalkFilesNoDuplicates(ChildPath(path, e.name), e.listing, excludes);
    }
  }

  /** The entries walk has handled after the first k: one more entry appended. */
  lemma EntriesFilesSnoc(path: string, entries: seq<Entry>, k: nat, excludes: seq<string>)
    requires k < |entries|
    ensures EntriesFiles(path, entries[..k + 1], excludes)
      == EntriesFiles(path, entries[..k], excludes) + EntryFiles(path, entries[k], excludes)
  {
    assert entries[..k + 1] == entries[..k] + [entries[k]];
    EntriesFilesAppend(path, entries[..k], [entries[k]], excludes);
    assert [entries[k]][1..] == [];
  }

  /** Bookkeeping of walk's readdir loop: one more entry handled. */
  lemma EntriesFilesStep(path: string, entries: seq<Entry>, k: nat, excludes: seq<string>,
                         start: seq<string>, prev: seq<string>, next: seq<string>)
    requires k < |entries|
    requires prev == start + EntriesFiles(path, entries[..k], excludes)
    requires next == prev + EntryFiles(path, entries[k], excludes)
    ensures next == start + EntriesFiles(path, entries[..k + 1], excludes)
  {
    EntriesFilesSnoc(path, entries, k, excludes);
    ConcatAssoc(start, EntriesFiles(path, entries[..k], excludes), EntryFiles(path, entries[k], excludes));
  }

  /**
   * walk: unless path is excluded or cannot be opened, reads its entries with
   * WalkEntries. Only appends to flist: its earlier contents stay a prefix,
   * and what follows is exactly WalkFiles.
   */
  method Walk(path: string, listing: Listing, excludes: StrList, flist: StrList)
    requires excludes.Valid() && flist.Valid() && excludes.Repr !! flist.Repr
    modifies flist.Repr
    ensures flist.Valid() && fresh(flist.Repr - old(flist.Repr))
    ensures flist.Contents == old(flist.Contents) + WalkFiles(path, listing, excludes.Contents)
    ensures IsExcluded(path, excludes.Contents) ==> flist.Contents == old(flist.Contents)
    decreases listing
  {
    var excluded := Check(path, excludes);
    if excluded != 0 {
      return;
    }
    match listing
    case Unopenable =>
      // opendir failed: the directory contributes nothing
      return;
    case Opened(entries) =>
      WalkEntries(path, entries, excludes, flist);
  }

  /** walk's readdir loop: each entry, in order, handed to WalkEntry. */
  method WalkEntries(path: string, entries: seq<Entry>, excludes: StrList, flist: StrList)
    requires excludes.Valid() && flist.Valid() && excludes.Repr !! flist.Repr
    modifies flist.Repr
    ensures flist.Valid() && fresh(flist.Repr - old(flist.Repr))
    ensures flist.Contents == old(flist.Contents) + EntriesFiles(path, entries, excludes.Contents)
    decreases entries
  {
    ghost var ex := excludes.Contents;
    var i := 0;
    while i < |entries|
      invariant 0 <= i <= |entries|
      invariant flist.Valid() && fresh(flist.Repr - old(flist.Repr))
      invariant excludes.Valid() && excludes.Repr !! flist.Repr && excludes.Contents == ex
      invariant flist.Contents == old(flist.Contents) + EntriesFiles(path, entries[..i], ex)
    {
      ghost var prev := flist.Contents;
      WalkEntry(path, entries[i], excludes, flist);
      EntriesFilesStep(path, entries, i, ex, old(flist.Contents), prev, flist.Contents);
      i := i + 1;
    }
    assert entries[..i] == entries;
  }

  /**
   * The body of walk's readdir loop for one entry: "." and ".." are skipped,
   * a directory is walked at its joined path, a regular file is appended
   * unless excluded, anything else is ignored.
   */
  method WalkEntry(path: string, dent: Entry, excludes: StrList, flist: StrList)
    requires excludes.Valid() && flist.Valid() && excludes.Repr !! flist.Repr
    modifies flist.Repr
    ensures flist.Valid() && fresh(flist.Repr - old(flist.Repr))
    ensures flist.Contents == old(flist.Contents) + EntryFiles(path, dent, excludes.Contents)
    decreases dent
  {
    if IsDotOrDotDot(dent.name) {
      return;
    }
    var p := ChildPath(path, dent.name);
    match dent
    case Dir(_, sub) =>
      Walk(p, sub, excludes, flist);
    case Reg(_) =>
      var c := Check(p, excludes);
      if c == 0 {
        flist.Append(p);
      }
    case Other(_) =>
  }

  /**
   * The watch list run builds: a fresh list filled by walking "." with the
   * root listing. The dir argument is accepted and not used: run always
   * walks ".".
   */
  method RunWalk(dir: string, root: Listing, excludes: StrList) returns (flist: StrList)
    requires excludes.Valid()
    ensures flist.Valid() && fresh(flist.Repr)
    ensures flist.Contents == WalkFiles(".", root, excludes.Contents)
    ensures flist.size == |WalkFiles(".", root, excludes.Contents)|
    ensures forall q :: q in flist.Contents <==> Reaches(".", root, excludes.Contents, q)
    ensures WellNamed(root) ==> NoDuplicates(flist.Contents)
  {
    flist := new StrList();
    Walk(".", root, excludes, flist);
    if WellNamed(root) {
      WalkFilesNoDuplicates(".", root, excludes.Contents);
    }
    forall q
      ensures q in flist.Contents <==> Reaches(".", root, excludes.Contents, q)
    {
      WalkFilesMembers(".", root, excludes.Contents, q);
    }
  }
}
