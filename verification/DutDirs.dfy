/**
 The private directories of nvdebug runs: names that carry the creating process's id, the
 start-up sweep that reads them back, and the handle that owns one directory.
 */
module DutDirs {
  import opened Text

  const PREFIX := "nvdebug-"

  const PIDS: nat := 0x1_0000_0000

  /** The name given to a new directory; the suffix is random. */
  function DirName(pid: nat, suffix: string): string {
    PREFIX + Decimal(pid) + "-" + suffix
  }

  /** The creating process's id, when `name` has the form of a directory name. */
  function DirPid(name: string): Option<nat> {
    if !(PREFIX <= name) then None
    else
      var rest := name[|PREFIX|..];
      var n := IndexOf(rest, '-');
      if n == |rest| then None
      else if n == 0 || !AllDigits(rest[..n]) || n + 1 == |rest| then None
      else if DecimalValue(rest[..n]) >= PIDS then None
      else Some(DecimalValue(rest[..n]))
  }

  /** `name` is `nvdebug-`, a number in digits, a dash and a suffix. */
  predicate Spelled(name: string, digits: string, suffix: string) {
    && name == "nvdebug-" + digits + "-" + suffix
    && digits != "" && suffix != "" && AllDigits(digits)
  }

  lemma SplitAtDash(digits: string, suffix: string)
    requires AllDigits(digits)
    ensures IndexOf(digits + "-" + suffix, '-') == |digits|
  {
    var s := digits + "-" + suffix;
    var n := IndexOf(s, '-');
    assert s[|digits|] == '-';
    assert forall i | 0 <= i < |digits| :: s[i] == digits[i];
    assert forall i | 0 <= i < n :: s[i] == s[..n][i];
  }

  /** The parser accepts exactly the names so spelled whose number fits, with that number. */
  lemma ParsedExactly(name: string, pid: nat)
    ensures DirPid(name) == Some(pid) <==>
            exists digits, suffix ::
              Spelled(name, digits, suffix) && DecimalValue(digits) == pid && pid < 0x1_0000_0000
  {
    if DirPid(name) == Some(pid) {
      var digits, suffix := ParsedIsSpelled(name);
    }
    if digits, suffix :| Spelled(name, digits, suffix) && DecimalValue(digits) == pid && pid < PIDS {
      SpelledIsParsed(name, digits, suffix);
    }
  }

  lemma ParsedIsSpelled(name: string) returns (digits: string, suffix: string)
    requires DirPid(name).Some?
    ensures Spelled(name, digits, suffix) && DecimalValue(digits) == DirPid(name).value < PIDS
  {
    var rest := name[|PREFIX|..];
    var n := IndexOf(rest, '-');
    digits, suffix := rest[..n], rest[n + 1..];
    assert rest == digits + "-" + suffix;
    assert name == PREFIX + rest;
  }

  lemma SpelledIsParsed(name: string, digits: string, suffix: string)
    requires Spelled(name, digits, suffix) && DecimalValue(digits) < PIDS
    ensures DirPid(name) == Some(DecimalValue(digits))
  {
    var rest := name[|PREFIX|..];
    assert rest == digits + "-" + suffix;
    SplitAtDash(digits, suffix);
    assert rest[..|digits|] == digits;
  }

  /** Every name created is parsed back to the id of its creator. */
  lemma NameRoundTrip(pid: nat, suffix: string)
    requires pid < 0x1_0000_0000 && suffix != ""
    ensures DirPid(DirName(pid, suffix)) == Some(pid)
    ensures Spelled(DirName(pid, suffix), Decimal(pid), suffix)
  {
    DecimalRoundTrip(pid);
    assert Spelled(DirName(pid, suffix), Decimal(pid), suffix);
    ParsedExactly(DirName(pid, suffix), pid);
  }

  // ---- The sweep ----------------------------------------------------------------------------

  /** A directory entry; the name is missing when it is not Unicode. */
  datatype Entry = Entry(name: Option<string>, isDir: bool)

  datatype Listed<+T> = Listed(value: T) | ListingFailed

  predicate IsStale(e: Entry, own: nat, running: nat -> bool) {
    && e.name.Some? && e.isDir
    && var pid := DirPid(e.name.value);
       pid.Some? && (pid.value == own || !running(pid.value))
  }

  /** The stale directories of a listing with their process ids, in listing order. */
  function StaleOf(entries: seq<Option<Entry>>, own: nat, running: nat -> bool): seq<(string, nat)> {
    if entries == [] then []
    else
      var last := entries[|entries| - 1];
      StaleOf(entries[..|entries| - 1], own, running)
      + if last.Some? && IsStale(last.value, own, running)
        then [(last.value.name.value, DirPid(last.value.name.value).value)] else []
  }

  /** A name is selected exactly when a directory has it that spells this process's id or one that does not
      run, with the id it spells. */
  lemma {:induction false} StaleExactly(entries: seq<Option<Entry>>, own: nat, running: nat -> bool,
                                        name: string, pid: nat)
    ensures (name, pid) in StaleOf(entries, own, running) <==>
            && (pid == own || !running(pid))
            && DirPid(name) == Some(pid)
            && Some(Entry(Some(name), true)) in entries
  {
    if entries != [] {
      var n := |entries| - 1;
      StaleExactly(entries[..n], own, running, name, pid);
      assert entries == entries[..n] + [entries[n]];
    }
  }

  /** The selection follows the listing. */
  lemma {:induction false} StaleInOrder(a: seq<Option<Entry>>, b: seq<Option<Entry>>, own: nat, running: nat -> bool)
    ensures StaleOf(a + b, own, running) == StaleOf(a, own, running) + StaleOf(b, own, running)
  {
    if b == [] {
      assert a + b == a;
    } else {
      var n := |b| - 1;
      assert (a + b)[..|a + b| - 1] == a + b[..n] && (a + b)[|a + b| - 1] == b[n];
      StaleInOrder(a, b[..n], own, running);
    }
  }

  /** The entries are read one by one; `None` is an entry that could not be read. */
  method StaleDirs(entries: seq<Option<Entry>>, own: nat, running: nat -> bool)
    returns (r: Listed<seq<(string, nat)>>)
    ensures r == if None in entries then ListingFailed else Listed(StaleOf(entries, own, running))
  {
    var stale: seq<(string, nat)> := [];
    for i := 0 to |entries|
      invariant None !in entries[..i]
      invariant stale == StaleOf(entries[..i], own, running)
    {
      assert entries[..i + 1][..i] == entries[..i];
      if entries[i].None? {
        return ListingFailed;
      }
      var e := entries[i].value;
      var pid := if e.name.Some? then DirPid(e.name.value) else None;
      if pid.Some? && e.isDir && (pid.value == own || !running(pid.value)) {
        stale := stale + [(e.name.value, pid.value)];
      }
    }
    assert entries[..|entries|] == entries;
    return Listed(stale);
  }

  /** The sweep takes only directories a run could have named, of this process id or of none that runs. */
  lemma SweepSparesOthers(e: Entry, own: nat, running: nat -> bool) returns (digits: string, suffix: string)
    requires IsStale(e, own, running)
    ensures Spelled(e.name.value, digits, suffix)
    ensures DecimalValue(digits) == own || !running(DecimalValue(digits))
  {
    var pid := DirPid(e.name.value).value;
    ParsedExactly(e.name.value, pid);
    digits, suffix :| Spelled(e.name.value, digits, suffix) && DecimalValue(digits) == pid && pid < PIDS;
  }

  // ---- The owning handle --------------------------------------------------------------------

  /** The temp root, up to the removals started under it. */
  class TempRoot {
    var removals: seq<string>

    constructor ()
      ensures removals == []
    {
      removals := [];
    }
  }

  class DutDir {
    const root: TempRoot
    var path: Option<string>

    constructor (root: TempRoot, path: string)
      ensures this.root == root && this.path == Some(path)
    {
      this.root := root;
      this.path := Some(path);
    }

    /** Starts the removal of the directory, unless an earlier `Remove` or `Release` did. */
    method Remove()
      modifies this`path, root
      ensures path.None?
      ensures root.removals == old(root.removals) + if old(path).Some? then [old(path).value] else []
    {
      match path {
        case None =>
        case Some(p) =>
          path := None;
          root.removals := root.removals + [p];
      }
    }

    /** What dropping the handle does. */
    method Release()
      modifies this`path, root
      ensures path.None?
      ensures root.removals == old(root.removals) + if old(path).Some? then [old(path).value] else []
    {
      if path.Some? {
        var p := path.value;
        path := None;
        root.removals := root.removals + [p];
      }
    }

    /** A handle is dropped at the end whether or not it was removed; one removal starts either way. */
    method UseThenDrop(removed: bool)
      requires path.Some?
      modifies this`path, root
      ensures path.None? && root.removals == old(root.removals) + [old(path).value]
    {
      if removed {
        Remove();
      }
      Release();
    }
  }
}
