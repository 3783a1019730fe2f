/** Command-line handling of the player: the help/version short cut, the
    command a client sends, and the server's `-subdir`/track parser. The
    argument list includes the program name at index 0. */
module Arguments {
  import opened Options

  /** A request answered before any queue exists. */
  datatype Request = Help | Version

  /** Only the first real argument is inspected (src/main.cpp:70-91). */
  function EarlyRequest(args: seq<string>): (r: Option<Request>)
    ensures r == Some(Help) <==> |args| > 1 && args[1] in {"-h", "--help"}
    ensures r == Some(Version) <==> |args| > 1 && args[1] in {"-v", "--version"}
    ensures r == None <==> |args| <= 1 || args[1] !in {"-h", "--help", "-v", "--version"}
  {
    if |args| > 1 then
      if args[1] == "-h" || args[1] == "--help" then Some(Help)
      else if args[1] == "-v" || args[1] == "--version" then Some(Version)
      else None
    else None
  }

  // ---------------------------------------------------------------------
  // Client command
  // ---------------------------------------------------------------------

  /** The client command as the code chooses it: "kill" when the argument
      count is exactly one, argument 1 otherwise. `None` stands for the read
      of argument 1 from a list that does not have one. */
  function ClientCommandAsWritten(args: seq<string>): (r: Option<string>)
    ensures r.Some? <==> |args| >= 1
    ensures r == Some("kill") <==> |args| == 1 || (1 < |args| && args[1] == "kill")
  {
    if |args| == 1 then Some("kill")
    else if 1 < |args| then Some(args[1])
    else None
  }

  /** The command a client sends: "kill" when nothing follows the program
      name, otherwise exactly the first argument, whatever it is. */
  function ClientCommand(args: seq<string>): (cmd: string)
    ensures |args| <= 1 ==> cmd == "kill"
    ensures 1 < |args| ==> cmd == args[1]
  {
    if |args| <= 1 then "kill" else args[1]
  }

  /** Where the code reads the first argument at all, it reads the same
      command as the corrected choice. */
  lemma ClientCommandAgrees(args: seq<string>)
    requires |args| >= 1
    ensures ClientCommandAsWritten(args) == Some(ClientCommand(args))
  {
  }

  /** An empty argument list (argc == 0) passes the `argc == 1` test as
      false and the code goes on to read argument 1, which does not exist;
      the corrected choice sends "kill". */
  lemma EmptyArgumentListReadsOutOfRange()
    ensures ClientCommandAsWritten([]) == None
    ensures ClientCommand([]) == "kill"
  {
  }

  // ---------------------------------------------------------------------
  // Server arguments
  // ---------------------------------------------------------------------

  /** What the server takes from its arguments. */
  datatype ServerArgs = ServerArgs(subdirectory: string, trackName: string)

  const SubdirFlag: string := "-subdir"

  /** The arguments from index `i` on, or none once `i` is past the end. */
  function From(args: seq<string>, i: nat): (rest: seq<string>)
    ensures |rest| == if i < |args| then |args| - i else 0
  {
    if i < |args| then args[i..] else []
  }

  /** The scan of `rest` from left to right, starting from `acc`: `-subdir`
      takes the next argument (if any) as the subdirectory with "/" added,
      every other argument replaces the track name. */
  function ParseFrom(acc: ServerArgs, rest: seq<string>): ServerArgs
    decreases |rest|
  {
    if rest == [] then acc
    else if rest[0] == SubdirFlag then
      if |rest| == 1 then acc
      else ParseFrom(acc.(subdirectory := rest[1] + "/"), rest[2..])
    else ParseFrom(acc.(trackName := rest[0]), rest[1..])
  }

  /** The parse of a whole argument list, program name excluded. */
  function Parse(args: seq<string>): ServerArgs
  {
    ParseFrom(ServerArgs("", ""), From(args, 1))
  }

  /** The server's argument loop (src/main.cpp:122-135). The index only grows
      and is compared with the length before every read. */
  method ParseServerArgs(args: seq<string>) returns (subdirectory: string, trackName: string)
    ensures ServerArgs(subdirectory, trackName) == Parse(args)
  {
    subdirectory, trackName := "", "";
    var i := 1;
    while i < |args|
      invariant 1 <= i <= |args| + 1
      invariant ParseFrom(ServerArgs(subdirectory, trackName), From(args, i)) == Parse(args)
      decreases |args| + 1 - i
    {
      ghost var rest := From(args, i);
      assert rest[0] == args[i];
      if args[i] == SubdirFlag {
        i := i + 1;
        if i < |args| {
          assert rest[1] == args[i] && rest[2..] == From(args, i + 1);
          subdirectory := args[i] + "/";
        }
      } else {
        assert rest[1..] == From(args, i + 1);
        trackName := args[i];
      }
      i := i + 1;
    }
  }

  // ---------------------------------------------------------------------
  // Roles of the arguments, an independent account of the parse
  // ---------------------------------------------------------------------

  /** What the scan makes of each argument. */
  datatype ArgRole = Flag | SubdirValue | Track

  /** The role of every argument of `rest`, position by position. */
  function Roles(rest: seq<string>): (roles: seq<ArgRole>)
    ensures |roles| == |rest|
    decreases |rest|
  {
    if rest == [] then []
    else if rest[0] == SubdirFlag then
      if |rest| == 1 then [Flag] else [Flag, SubdirValue] + Roles(rest[2..])
    else [Track] + Roles(rest[1..])
  }

  /** `j` is the last position of `roles` that has role `role`. */
  ghost predicate LastWith(roles: seq<ArgRole>, role: ArgRole, j: int)
  {
    0 <= j < |roles| && roles[j] == role && forall k | j < k < |roles| :: roles[k] != role
  }

  /** Every `-subdir` is a flag unless it is itself consumed as a value; a
      flag's successor, when there is one, is its value and never a track;
      a value always follows a flag; a track name is never `-subdir`. */
  lemma {:induction false} RolesShape(rest: seq<string>)
    ensures var roles := Roles(rest);
      && (forall j | 0 <= j < |rest| && roles[j] == Flag ::
            rest[j] == SubdirFlag && (j + 1 < |rest| ==> roles[j + 1] == SubdirValue))
      && (forall j | 0 <= j < |rest| && roles[j] == SubdirValue :: 0 < j && roles[j - 1] == Flag)
      && (forall j | 0 <= j < |rest| && roles[j] == Track :: rest[j] != SubdirFlag)
    decreases |rest|
  {
    if rest == [] {
    } else if rest[0] == SubdirFlag {
      if |rest| > 1 {
        var tail := rest[2..];
        RolesShape(tail);
        assert forall j | 2 <= j < |rest| :: Roles(rest)[j] == Roles(tail)[j - 2] && rest[j] == tail[j - 2];
      }
    } else {
      var tail := rest[1..];
      RolesShape(tail);
      assert forall j | 1 <= j < |rest| :: Roles(rest)[j] == Roles(tail)[j - 1] && rest[j] == tail[j - 1];
    }
  }

  /** How "the last position with a role" of `pre + tail` relates to that
      of `tail`. */
  lemma LastWithShift(pre: seq<ArgRole>, tail: seq<ArgRole>, role: ArgRole)
    ensures var roles := pre + tail;
      && (forall j | LastWith(roles, role, j) && j < |pre| :: forall k | 0 <= k < |tail| :: tail[k] != role)
      && (forall j | LastWith(roles, role, j) && |pre| <= j :: LastWith(tail, role, j - |pre|))
      && ((forall k | 0 <= k < |roles| :: roles[k] != role) ==> forall k | 0 <= k < |tail| :: tail[k] != role)
  {
    var roles := pre + tail;
    assert forall k | 0 <= k < |tail| :: roles[k + |pre|] == tail[k];
  }

  /** The scan keeps the track name of the last argument whose role is
      Track; with no such argument it keeps the one it started from. */
  lemma {:induction false} ParseFromTrackByRoles(acc: ServerArgs, rest: seq<string>)
    ensures var p, roles := ParseFrom(acc, rest), Roles(rest);
      && ((forall k | 0 <= k < |rest| :: roles[k] != Track) ==> p.trackName == acc.trackName)
      && (forall j | LastWith(roles, Track, j) :: p.trackName == rest[j])
    decreases |rest|
  {
    if rest == [] {
    } else if rest[0] == SubdirFlag {
      if |rest| > 1 {
        var tail := rest[2..];
        ParseFromTrackByRoles(acc.(subdirectory := rest[1] + "/"), tail);
        LastWithShift([Flag, SubdirValue], Roles(tail), Track);
        assert Roles(rest) == [Flag, SubdirValue] + Roles(tail);
        assert forall j | 2 <= j < |rest| :: rest[j] == tail[j - 2];
      }
    } else {
      var tail := rest[1..];
      ParseFromTrackByRoles(acc.(trackName := rest[0]), tail);
      LastWithShift([Track], Roles(tail), Track);
      assert Roles(rest) == [Track] + Roles(tail);
      assert Roles(rest)[0] == Track;
      assert forall j | 1 <= j < |rest| :: rest[j] == tail[j - 1];
    }
  }

  /** The scan keeps the subdirectory of the last SubdirValue argument with
      "/" added; with no such argument it keeps the one it started from. */
  lemma {:induction false} ParseFromSubdirByRoles(acc: ServerArgs, rest: seq<string>)
    ensures var p, roles := ParseFrom(acc, rest), Roles(rest);
      && ((forall k | 0 <= k < |rest| :: roles[k] != SubdirValue) ==> p.subdirectory == acc.subdirectory)
      && (forall j | LastWith(roles, SubdirValue, j) :: p.subdirectory == rest[j] + "/")
    decreases |rest|
  {
    if rest == [] {
    } else if rest[0] == SubdirFlag {
      if |rest| > 1 {
        var tail := rest[2..];
        ParseFromSubdirByRoles(acc.(subdirectory := rest[1] + "/"), tail);
        LastWithShift([Flag, SubdirValue], Roles(tail), SubdirValue);
        assert Roles(rest) == [Flag, SubdirValue] + Roles(tail);
        assert Roles(rest)[1] == SubdirValue;
        assert forall j | 2 <= j < |rest| :: rest[j] == tail[j - 2];
      }
    } else {
      var tail := rest[1..];
      ParseFromSubdirByRoles(acc.(trackName := rest[0]), tail);
      LastWithShift([Track], Roles(tail), SubdirValue);
      assert Roles(rest) == [Track] + Roles(tail);
      assert forall j | 1 <= j < |rest| :: rest[j] == tail[j - 1];
    }
  }

  /** The server's track name is the last argument that is neither a
      `-subdir` flag nor its value, or "" if there is none; its subdirectory
      is the value of the last `-subdir` that has one, with "/" added, or "". */
  lemma ParseByRoles(args: seq<string>)
    ensures var p, rest := Parse(args), From(args, 1);
      && ((forall k | 0 <= k < |rest| :: Roles(rest)[k] != Track) ==> p.trackName == "")
      && (forall j | LastWith(Roles(rest), Track, j) :: p.trackName == rest[j])
      && ((forall k | 0 <= k < |rest| :: Roles(rest)[k] != SubdirValue) ==> p.subdirectory == "")
      && (forall j | LastWith(Roles(rest), SubdirValue, j) :: p.subdirectory == rest[j] + "/")
  {
    ParseFromTrackByRoles(ServerArgs("", ""), From(args, 1));
    ParseFromSubdirByRoles(ServerArgs("", ""), From(args, 1));
  }

  /** A `-subdir` with nothing after it changes nothing: the scan of the
      list gives what the scan of the list without it gives. */
  lemma {:induction false} TrailingFlagIgnored(acc: ServerArgs, rest: seq<string>)
    requires |rest| > 0 && Roles(rest)[|rest| - 1] == Flag
    ensures ParseFrom(acc, rest) == ParseFrom(acc, rest[..|rest| - 1])
    decreases |rest|
  {
    var n := |rest|;
    var init := rest[..n - 1];
    if rest[0] == SubdirFlag {
      if n > 1 {
        var tail := rest[2..];
        assert Roles(rest) == [Flag, SubdirValue] + Roles(tail);
        assert n > 2;
        assert Roles(tail)[|tail| - 1] == Roles(rest)[n - 1];
        TrailingFlagIgnored(acc.(subdirectory := rest[1] + "/"), tail);
        assert init[0] == SubdirFlag && init[1] == rest[1];
        assert init[2..] == tail[..|tail| - 1];
      }
    } else {
      var tail := rest[1..];
      assert Roles(rest) == [Track] + Roles(tail);
      assert n > 1;
      assert Roles(tail)[|tail| - 1] == Roles(rest)[n - 1];
      TrailingFlagIgnored(acc.(trackName := rest[0]), tail);
      assert init[0] == rest[0];
      assert init[1..] == tail[..|tail| - 1];
    }
  }
}
