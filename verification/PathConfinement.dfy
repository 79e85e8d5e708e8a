/** Where the runtime may write: lexical path cleaning, the two checks on a file name, and
    the loops that write the files and run the commands of a plan. */
module PathConfinement {
  import opened Text

  // --- filepath.Clean and filepath.Join ---

  /** One path component against the components kept so far. */
  function Push(stack: seq<string>, part: string, rooted: bool): seq<string> {
    if part == "" || part == "." then stack
    else if part != ".." then stack + [part]
    else if stack != [] && stack[|stack| - 1] != ".." then stack[..|stack| - 1]
    else if rooted then stack
    else stack + [".."]
  }

  function Stack(parts: seq<string>, rooted: bool): seq<string> {
    if parts == [] then [] else Push(Stack(parts[..|parts| - 1], rooted), parts[|parts| - 1], rooted)
  }

  predicate IsAbs(path: string) {
    path != "" && path[0] == '/'
  }

  function PathText(stack: seq<string>, rooted: bool): string {
    if stack == [] then (if rooted then "/" else ".")
    else (if rooted then "/" else "") + Join(stack, '/')
  }

  function Clean(path: string): string {
    PathText(Stack(Split(path, '/'), IsAbs(path)), IsAbs(path))
  }

  function JoinPath(root: string, name: string): string
    requires root != "" && name != ""
  {
    Clean(root + "/" + name)
  }

  // --- The checks ---

  datatype Result = Safe(path: string) | Unsafe

  /** safeJoin. */
  function SafeJoin(root: string, name: string, allowAbsolute: bool): Result
    requires root != ""
  {
    var clean := Clean(Trim(name));
    CleanIsNotEmpty(Trim(name));
    if allowAbsolute && IsAbs(clean) then (if clean == "/" then Unsafe else Safe(clean))
    else if clean == "." || "../" <= clean || clean == ".." || IsAbs(clean) then Unsafe
    else
      var path := JoinPath(root, clean);
      if !(root + "/" <= path) && path != root then Unsafe else Safe(path)
  }

  // --- What a path walks through ---

  /** An ordinary component. */
  predicate Ordinary(part: string) {
    part != "" && part != "." && part != ".." && '/' !in part
  }

  predicate AllOrdinary(parts: seq<string>) {
    forall i :: 0 <= i < |parts| ==> Ordinary(parts[i])
  }

  /** Walking the components downwards from a directory: where one ends up below it, or None
      as soon as a step climbs above it. */
  function Walk(parts: seq<string>): Option<seq<string>> {
    if parts == [] then Some([])
    else
      var before, part := Walk(parts[..|parts| - 1]), parts[|parts| - 1];
      if before.None? || part == "" || part == "." then before
      else if part != ".." then Some(before.value + [part])
      else if before.value == [] then None
      else Some(before.value[..|before.value| - 1])
  }

  predicate NoSlashes(parts: seq<string>) {
    forall i :: 0 <= i < |parts| ==> '/' !in parts[i]
  }

  lemma {:induction false} WalkIsOrdinary(parts: seq<string>)
    requires NoSlashes(parts)
    ensures Walk(parts).Some? ==> AllOrdinary(Walk(parts).value)
  {
    if parts != [] {
      WalkIsOrdinary(parts[..|parts| - 1]);
    }
  }

  /** Cleaning a relative path keeps a leading ".." exactly when the walk climbs out. */
  lemma {:induction false} StackIsWalk(parts: seq<string>)
    requires NoSlashes(parts)
    ensures Walk(parts).Some? ==> Stack(parts, false) == Walk(parts).value
    ensures Walk(parts).None? ==> Stack(parts, false) != [] && Stack(parts, false)[0] == ".."
  {
    if parts != [] {
      var n := |parts| - 1;
      StackIsWalk(parts[..n]);
      WalkIsOrdinary(parts[..n]);
      var before := Stack(parts[..n], false);
      if Walk(parts[..n]).None? {
        assert Push(before, parts[n], false) != [] && Push(before, parts[n], false)[0] == "..";
      }
    }
  }

  lemma {:induction false} StackNoSlashes(parts: seq<string>, rooted: bool)
    requires NoSlashes(parts)
    ensures NoSlashes(Stack(parts, rooted))
    ensures forall i ::
              0 <= i < |Stack(parts, rooted)| ==> Stack(parts, rooted)[i] != "" && Stack(parts, rooted)[i] != "."
    ensures rooted ==> AllOrdinary(Stack(parts, rooted))
  {
    if parts != [] {
      StackNoSlashes(parts[..|parts| - 1], rooted);
    }
  }

  /** Ordinary components stay where they are. */
  lemma {:induction false} StackOrdinary(a: seq<string>, b: seq<string>)
    requires AllOrdinary(b)
    ensures Stack(a + b, true) == Stack(a, true) + b
  {
    if b == [] {
      assert a + b == a;
    } else {
      var n := |b| - 1;
      assert (a + b)[..|a + b| - 1] == a + b[..n];
      StackOrdinary(a, b[..n]);
      assert Ordinary(b[n]);
      assert b == b[..n] + [b[n]];
    }
  }

  lemma CleanIsNotEmpty(path: string)
    ensures Clean(path) != ""
  {
    var s := Stack(Split(path, '/'), IsAbs(path));
    SplitParts(path, '/');
    StackNoSlashes(Split(path, '/'), IsAbs(path));
  }

  // --- Confinement ---

  /** A cleaned absolute path: the root with these components. */
  function RootOf(rs: seq<string>): (root: string)
    ensures root != ""
  {
    PathText(rs, true)
  }

  lemma JoinFirst(parts: seq<string>)
    requires parts != []
    ensures if |parts| == 1 then Join(parts, '/') == parts[0]
            else Join(parts, '/') == parts[0] + "/" + Join(parts[1..], '/')
  {
  }

  lemma {:induction false} JoinConcat(a: seq<string>, b: seq<string>)
    requires a != [] && b != []
    ensures Join(a + b, '/') == Join(a, '/') + "/" + Join(b, '/')
  {
    if |a| == 1 {
      assert (a + b)[1..] == b;
    } else {
      assert (a + b)[1..] == a[1..] + b;
      JoinConcat(a[1..], b);
    }
  }

  /** The first check, in terms of the first component. */
  predicate PassesFirst(clean: string) {
    !(clean == "." || "../" <= clean || clean == ".." || IsAbs(clean))
  }

  lemma OrdinaryPasses(parts: seq<string>)
    requires AllOrdinary(parts) && parts != []
    ensures PassesFirst(Join(parts, '/')) && Join(parts, '/') != ""
  {
    var clean, first := Join(parts, '/'), parts[0];
    JoinFirst(parts);
    assert Ordinary(first);
    assert clean[0] == first[0] && first[0] in first;
    if |parts| > 1 {
      assert clean[|first|] == '/';
      if "../" <= clean {
        FirstSlash(first, clean);
      }
    } else {
      NoSlashNoClimb(first);
    }
  }

  lemma NoSlashNoClimb(first: string)
    requires '/' !in first
    ensures !("../" <= first)
  {
    if |first| > 2 {
      assert first[2] in first;
    }
  }

  lemma FirstSlash(first: string, clean: string)
    requires '/' !in first && first + "/" <= clean && "../" <= clean
    ensures first == ".."
  {
    assert clean[|first|] == (first + "/")[|first|] == '/' && clean[2] == '/';
    assert clean[0] == '.' && clean[1] == '.';
    assert forall i :: 0 <= i < |first| ==> clean[i] == (first + "/")[i] == first[i];
  }

  lemma ClimbingFails(stack: seq<string>)
    requires stack != [] && stack[0] == ".."
    ensures !PassesFirst(Join(stack, '/'))
  {
    JoinFirst(stack);
  }

  /** The first check passes exactly the relative names whose walk stays below the root and
      gets somewhere. */
  lemma FirstCheckIff(rel: string)
    ensures PassesFirst(Clean(rel)) <==> !IsAbs(rel) && Walk(Split(rel, '/')).Some? && Walk(Split(rel, '/')).value != []
    ensures PassesFirst(Clean(rel)) ==> Clean(rel) == Join(Walk(Split(rel, '/')).value, '/')
  {
    var parts := Split(rel, '/');
    SplitParts(rel, '/');
    StackIsWalk(parts);
    WalkIsOrdinary(parts);
    if IsAbs(rel) {
      assert IsAbs(Clean(rel));
    } else if Walk(parts).None? {
      ClimbingFails(Stack(parts, false));
    } else if Walk(parts).value != [] {
      OrdinaryPasses(Walk(parts).value);
    }
  }

  /** Joining ordinary components below a cleaned root appends them. */
  lemma JoinPathOf(rs: seq<string>, below: seq<string>)
    requires AllOrdinary(rs) && AllOrdinary(below) && below != []
    ensures Join(below, '/') != "" && JoinPath(RootOf(rs), Join(below, '/')) == "/" + Join(rs + below, '/')
  {
    OrdinaryPasses(below);
    hide Stack, Split, Join, AllOrdinary;
    var path := RootOf(rs) + "/" + Join(below, '/');
    var start := if rs == [] then ["", ""] else [""];
    PartsOfJoined(rs, below);
    assert AllOrdinary(rs + below) by { OrdinaryConcat(rs, below); }
    StackOrdinary(start, rs + below);
    TwoEmpty();
    assert path[0] == '/';
    assert Stack(start + (rs + below), true) == rs + below;
    assert Clean(path) == PathText(rs + below, true);
  }

  lemma OrdinaryConcat(a: seq<string>, b: seq<string>)
    requires AllOrdinary(a) && AllOrdinary(b)
    ensures AllOrdinary(a + b)
  {
  }

  lemma PartsOfJoined(rs: seq<string>, below: seq<string>)
    requires AllOrdinary(rs) && AllOrdinary(below) && below != []
    ensures Split(RootOf(rs) + "/" + Join(below, '/'), '/') == (if rs == [] then ["", ""] else [""]) + (rs + below)
  {
    hide Split;
    var start := if rs == [] then ["", ""] else [""];
    var all := start + (rs + below);
    if rs == [] {
      assert all[1..] == [""] + below && all[1..][1..] == below;
    } else {
      JoinConcat(rs, below);
      assert all[1..] == rs + below;
    }
    assert Join(all, '/') == RootOf(rs) + "/" + Join(below, '/');
    SplitJoin(all, '/');
  }

  lemma TwoEmpty()
    ensures Stack([""], true) == [] && Stack(["", ""], true) == []
  {
    assert [""][..0] == [] && ["", ""][..1] == [""];
    assert Stack([""], true) == Push(Stack([], true), "", true);
    assert Stack(["", ""], true) == Push(Stack([""], true), "", true);
  }

  /** With absolute names disallowed, below any cleaned root but "/": a name is accepted
      exactly when its walk stays below the root and gets somewhere, and the path is the root
      followed by where it got; the second check rejects nothing more. */
  lemma SafeJoinIff(rs: seq<string>, name: string)
    requires AllOrdinary(rs) && rs != []
    ensures var w := Walk(Split(Trim(name), '/'));
            SafeJoin(RootOf(rs), name, false) ==
              if !IsAbs(Trim(name)) && w.Some? && w.value != [] then Safe(RootOf(rs) + "/" + Join(w.value, '/'))
              else Unsafe
    ensures SafeJoin(RootOf(rs), name, false).Safe? ==> AllOrdinary(Walk(Split(Trim(name), '/')).value)
  {
    var rel := Trim(name);
    SplitParts(rel, '/');
    WalkIsOrdinary(Split(rel, '/'));
    FirstCheckIff(rel);
    CleanIsNotEmpty(rel);
    if PassesFirst(Clean(rel)) {
      SecondCheckPasses(rs, Walk(Split(rel, '/')).value);
    }
    hide Clean, JoinPath, Walk, Trim, Join, Split, AllOrdinary, IsAbs, RootOf;
  }

  lemma SecondCheckPasses(rs: seq<string>, below: seq<string>)
    requires AllOrdinary(rs) && rs != [] && AllOrdinary(below) && below != []
    ensures Join(below, '/') != ""
    ensures JoinPath(RootOf(rs), Join(below, '/')) == RootOf(rs) + "/" + Join(below, '/')
    ensures RootOf(rs) + "/" <= JoinPath(RootOf(rs), Join(below, '/'))
  {
    JoinPathOf(rs, below);
    JoinConcat(rs, below);
    hide JoinPath, Join, AllOrdinary;
  }

  /** Below the root "/" itself the second check rejects everything. */
  lemma NothingBelowSlash(name: string)
    ensures SafeJoin("/", name, false) == Unsafe
  {
    var rel := Trim(name);
    var parts := Split(rel, '/');
    SplitParts(rel, '/');
    WalkIsOrdinary(parts);
    FirstCheckIff(rel);
    if PassesFirst(Clean(rel)) {
      var below := Walk(parts).value;
      JoinPathOf([], below);
      OrdinaryPasses(below);
      assert [] + below == below;
      hide Clean, JoinPath, Walk, Trim;
      var path := "/" + Join(below, '/');
      assert path[1] == Join(below, '/')[0] != '/';
      assert !("/" + "/" <= path);
    }
  }

  /** Where absolute names are allowed, one is accepted unless it comes down to "/", and leads to
      a path of ordinary components from "/" on; relative names are treated as before. */
  lemma AbsoluteAllowed(root: string, name: string)
    requires root != ""
    ensures !IsAbs(Trim(name)) ==> SafeJoin(root, name, true) == SafeJoin(root, name, false)
    ensures IsAbs(Trim(name)) ==>
              SafeJoin(root, name, true) == (if Clean(Trim(name)) == "/" then Unsafe else Safe(Clean(Trim(name))))
    ensures IsAbs(Trim(name)) && SafeJoin(root, name, true).Safe? ==>
              exists parts :: AllOrdinary(parts) && parts != []
                && SafeJoin(root, name, true).path == "/" + Join(parts, '/')
  {
    var rel := Trim(name);
    SplitParts(rel, '/');
    StackNoSlashes(Split(rel, '/'), IsAbs(rel));
    CleanIsNotEmpty(rel);
    CleanKeepsAbs(rel);
    var stack := Stack(Split(rel, '/'), IsAbs(rel));
    hide Stack, Split, Trim, Walk, JoinPath;
  }

  lemma CleanKeepsAbs(path: string)
    ensures IsAbs(Clean(path)) <==> IsAbs(path)
  {
    var s := Stack(Split(path, '/'), IsAbs(path));
    SplitParts(path, '/');
    StackNoSlashes(Split(path, '/'), IsAbs(path));
    hide Stack, Split;
    if s != [] {
      assert s[0] != "" && '/' !in s[0];
      assert Join(s, '/')[0] == s[0][0] && s[0][0] in s[0];
    }
  }

  // --- Running a plan ---

  /** A path strictly below the root without a ".." component. */
  ghost predicate Below(rs: seq<string>, path: string) {
    exists parts: seq<string> :: parts != [] && AllOrdinary(parts) && path == RootOf(rs) + "/" + Join(parts, '/')
  }

  class Disk {
    var files: map<string, string>
    /** Number of writes that have failed. */
    var failures: nat

    /** Creating the directories and writing the file, or failing. */
    method Write(path: string, content: string) returns (ok: bool)
      modifies this
      ensures files == if ok then old(files)[path := content] else old(files)
      ensures failures == if ok then old(failures) else old(failures) + 1
    {
      ok := *;
      if ok {
        files := files[path := content];
      } else {
        failures := failures + 1;
      }
    }
  }

  ghost predicate OnlyBelowChanged(rs: seq<string>, before: map<string, string>, after: map<string, string>) {
    && before.Keys <= after.Keys
    && forall path :: path in after && (path !in before || after[path] != before[path]) ==> Below(rs, path)
  }

  predicate LeadsTo(rs: seq<string>, name: string, path: string) {
    SafeJoin(RootOf(rs), name, false) == Safe(path)
  }

  /** The name's path holds the content planned for it, or for another name of the same path. */
  ghost predicate Written(rs: seq<string>, plan: map<string, string>, name: string, files: map<string, string>) {
    exists path, other :: path in files && other in plan && LeadsTo(rs, name, path) && LeadsTo(rs, other, path)
                          && files[path] == plan[other]
  }

  lemma WrittenStays(rs: seq<string>, plan: map<string, string>, name: string, path: string, done: string,
                     files: map<string, string>)
    requires name in plan && LeadsTo(rs, name, path) && Written(rs, plan, done, files)
    ensures Written(rs, plan, done, files[path := plan[name]])
  {
    hide LeadsTo;
    var p, other :| p in files && other in plan && LeadsTo(rs, done, p) && LeadsTo(rs, other, p)
                    && files[p] == plan[other];
    var after := files[path := plan[name]];
    if p == path {
      assert LeadsTo(rs, done, path) && LeadsTo(rs, name, path) && after[path] == plan[name];
    } else {
      assert after[p] == plan[other];
    }
  }

  /** The file loop of Apply, absolute names disallowed: the plan's map is walked in some
      order. Nothing outside the root changes, and unless a write fails every named file is
      written or a name is unsafe. */
  method WriteFiles(rs: seq<string>, plan: map<string, string>, disk: Disk) returns (ok: bool)
    requires AllOrdinary(rs) && rs != []
    modifies disk
    ensures OnlyBelowChanged(rs, old(disk.files), disk.files)
    ensures ok ==> forall name :: name in plan ==> Written(rs, plan, name, disk.files)
    ensures disk.failures == old(disk.failures) ==>
      (ok <==> forall name :: name in plan ==> SafeJoin(RootOf(rs), name, false).Safe?)
  {
    hide SafeJoin, Below, Written;
    var todo := plan.Keys;
    while todo != {}
      invariant todo <= plan.Keys && disk.failures == old(disk.failures)
      invariant OnlyBelowChanged(rs, old(disk.files), disk.files)
      invariant forall name :: name in plan && name !in todo ==>
        SafeJoin(RootOf(rs), name, false).Safe? && Written(rs, plan, name, disk.files)
      decreases todo
    {
      var name :| name in todo;
      var joined := SafeJoin(RootOf(rs), name, false);
      if joined.Unsafe? {
        return false;
      }
      SafeIsBelow(rs, name);
      ghost var before := disk.files;
      ok := disk.Write(joined.path, plan[name]);
      if !ok {
        return;
      }
      NowWritten(rs, plan, name, joined.path, before);
      forall done | done in plan && done !in todo
        ensures Written(rs, plan, done, disk.files)
      {
        WrittenStays(rs, plan, name, joined.path, done, before);
      }
      todo := todo - {name};
    }
    ok := true;
  }

  lemma NowWritten(rs: seq<string>, plan: map<string, string>, name: string, path: string, files: map<string, string>)
    requires name in plan && LeadsTo(rs, name, path)
    ensures Written(rs, plan, name, files[path := plan[name]])
  {
    hide LeadsTo;
    var after := files[path := plan[name]];
    assert path in after && after[path] == plan[name];
  }

  lemma SafeIsBelow(rs: seq<string>, name: string)
    requires AllOrdinary(rs) && rs != [] && SafeJoin(RootOf(rs), name, false).Safe?
    ensures Below(rs, SafeJoin(RootOf(rs), name, false).path)
  {
    SafeJoinIff(rs, name);
  }

  /** The commands that are run: trimmed, blank ones skipped. */
  function Runnable(commands: seq<string>): seq<string> {
    if commands == [] then []
    else
      var last := Trim(commands[|commands| - 1]);
      Runnable(commands[..|commands| - 1]) + (if last == "" then [] else [last])
  }

  lemma {:induction false} RunnablePrefix(commands: seq<string>, n: nat)
    requires n <= |commands|
    ensures Runnable(commands[..n]) <= Runnable(commands)
    decreases |commands| - n
  {
    if n < |commands| {
      assert commands[..n + 1][..n] == commands[..n];
      RunnablePrefix(commands, n + 1);
    } else {
      assert commands[..n] == commands;
    }
  }

  /** The command loop of Apply: in order, up to and including the first failure. */
  method RunCommands(commands: seq<string>, exitCode: string -> int) returns (ran: seq<string>, ok: bool)
    ensures ran <= Runnable(commands)
    ensures ok <==> forall i :: 0 <= i < |Runnable(commands)| ==> exitCode(Runnable(commands)[i]) == 0
    ensures if ok then ran == Runnable(commands)
            else ran != [] && exitCode(ran[|ran| - 1]) != 0 && forall i :: 0 <= i < |ran| - 1 ==> exitCode(ran[i]) == 0
  {
    ran := [];
    for i := 0 to |commands|
      invariant ran == Runnable(commands[..i])
      invariant forall k :: 0 <= k < |ran| ==> exitCode(ran[k]) == 0
    {
      var command := Trim(commands[i]);
      assert commands[..i + 1][..i] == commands[..i];
      if command == "" {
        continue;
      }
      ran := ran + [command];
      if exitCode(command) != 0 {
        RunnablePrefix(commands, i + 1);
        assert Runnable(commands)[|ran| - 1] == command;
        return ran, false;
      }
    }
    assert commands[..|commands|] == commands;
    ok := true;
  }
}
