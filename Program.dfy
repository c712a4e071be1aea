/** The whole run of main in gister.go, once flag parsing, the environment,
    the files, standard input, UUID generation and the HTTP exchange are
    replaced by their outcomes. */
module Program {
  import opened Wrappers
  import Text
  import opened Collector
  import opened Credentials
  import opened Transport

  /** The parsed flags: -u, -p, -a and -d. */
  datatype Flags = Flags(update: string, public: bool, anonymous: bool, description: string)

  /** What the process sees of its environment: GISTER_GITHUB_TOKEN ("" when
      unset), HOME, and the content of $HOME/.gist (None when unreadable). */
  datatype Environment = Environment(token: string, home: string, dotfile: Option<string>)

  /** The request as it is serialised: a snapshot of the Gist. */
  datatype GistRequest = GistRequest(description: string, public: bool, files: map<string, GistFile>)

  /** How a run ends. The fatal exits are: no file arguments; getGist failed;
      the request could not be built (marshalled, its URL parsed, or
      http.NewRequest refused it); no usable credential; the request could
      not be sent or its answer not decoded. Otherwise the request was posted to `path`, with `auth`
      as Basic authentication when present, and `report` is what main made
      of the response. */
  datatype Exit =
    | NoInputs
    | CollectionFailed(error: GistError)
    | BuildFailed
    | CredentialFailed(reason: TokenError)
    | TransportFailed
    | Completed(request: GistRequest, path: string, auth: Option<Credential>, report: Report)

  /** What `reply` must satisfy for a run: the visit order covers its errors. */
  predicate ReplyVisitable(reply: Option<Response>, visit: seq<seq<string>>)
  {
    reply.Some? && reply.value.errors.Some? ==> VisitOrder(visit, reply.value.errors.value)
  }

  /** The outcome of main, stage by stage: collect the files, apply the -d
      and -p overrides, pick the path, resolve the credential unless -a,
      and classify the reply. `contents` and `ids` are, per argument, what
      reading it gave and the name generated for "-"; `built` says whether
      the request was built before the credential step; `reply` is the decoded
      response (None when sending or decoding failed). */
  function Invoke(args: seq<string>, flags: Flags, contents: seq<Option<string>>, ids: seq<Option<string>>,
                  env: Environment, built: bool, reply: Option<Response>, visit: seq<seq<string>>): Exit
    requires |contents| == |args| && |ids| == |args| && ReplyVisitable(reply, visit)
  {
    if |args| == 0 then NoInputs
    else
      match Collect(args, contents, ids, |args|)
      case Err(e) => CollectionFailed(e)
      case Ok(files) =>
        var description := if flags.description != "" then flags.description else Text.Join(args, ", ");
        var request := GistRequest(description, flags.public, files);
        if !built then BuildFailed
        else
          match Authenticate(flags.anonymous, env.token, env.home, env.dotfile)
          case Err(e) => CredentialFailed(e)
          case Ok(auth) =>
            if reply.None? then TransportFailed
            else Completed(request, EndpointPath(flags.update), auth, Classify(reply.value, visit))
  }

  /** main: the same steps, on the Gist object getGist returns. */
  method Run(args: seq<string>, flags: Flags, contents: seq<Option<string>>, ids: seq<Option<string>>,
             env: Environment, built: bool, reply: Option<Response>, visit: seq<seq<string>>) returns (exit: Exit)
    requires |contents| == |args| && |ids| == |args| && ReplyVisitable(reply, visit)
    ensures exit == Invoke(args, flags, contents, ids, env, built, reply, visit)
  {
    if |args| == 0 {
      return NoInputs;
    }
    var gist, err := GetGist(args, contents, ids);
    if err.Some? {
      return CollectionFailed(err.value);
    }
    if |flags.description| != 0 {
      gist.description := flags.description;
    }
    gist.public := flags.public;
    var request := GistRequest(gist.description, gist.public, gist.files);

    var postTo := "gists";
    if flags.update != "" {
      postTo := postTo + "/" + flags.update;
    }
    if !built {
      return BuildFailed;
    }

    var auth: Option<Credential> := None;
    if !flags.anonymous {
      var token := LoadToken(env.token, env.home, env.dotfile);
      if token.Err? {
        return CredentialFailed(token.error);
      }
      var words := Text.Split(token.value, ":");
      if |words| != 2 {
        return CredentialFailed(Malformed);
      }
      auth := Some(Credential(words[0], words[1]));
    }

    if reply.None? {
      return TransportFailed;
    }
    var response := reply.value;
    var report := Posted;
    if response.htmlUrl.None? {
      var lines := [];
      if response.errors.Some? {
        lines := EmitDiagnostics(response.errors.value, visit);
      }
      report := if response.message.Some? then Rejected(lines, response.message.value) else Crashed(lines);
    }
    return Completed(request, postTo, auth, report);
  }

  /** In the request that is sent, the description is -d when that is
      non-empty and otherwise the arguments joined with ", "; `public` is
      -p, whatever getGist set; the files are what getGist collected. */
  lemma RequestFollowsFlags(args: seq<string>, flags: Flags, contents: seq<Option<string>>, ids: seq<Option<string>>,
                            env: Environment, built: bool, reply: Option<Response>, visit: seq<seq<string>>)
    requires |contents| == |args| && |ids| == |args| && ReplyVisitable(reply, visit)
    requires Invoke(args, flags, contents, ids, env, built, reply, visit).Completed?
    ensures var r := Invoke(args, flags, contents, ids, env, built, reply, visit).request;
      r.description == (if flags.description != "" then flags.description else Text.Join(args, ", "))
      && r.public == flags.public
      && Collect(args, contents, ids, |args|) == Ok(r.files)
  {
  }

  /** Once the files are collected, the run does not stop for want of
      input nor in getGist. */
  lemma CollectedGoesOn(args: seq<string>, flags: Flags, contents: seq<Option<string>>, ids: seq<Option<string>>,
                        env: Environment, built: bool, reply: Option<Response>, visit: seq<seq<string>>)
    requires |contents| == |args| && |ids| == |args| && ReplyVisitable(reply, visit)
    requires |args| > 0 && Collect(args, contents, ids, |args|).Ok?
    ensures var exit := Invoke(args, flags, contents, ids, env, built, reply, visit);
      !exit.NoInputs? && !exit.CollectionFailed?
  {
  }

  /** A request that cannot be built (say an update id that is not a valid
      URL path) ends the run before the credential step: the outcome is the
      same whatever the flags' -a and the environment say. */
  lemma BuildFailureFirst(args: seq<string>, flags: Flags, contents: seq<Option<string>>, ids: seq<Option<string>>,
                          env: Environment, reply: Option<Response>, visit: seq<seq<string>>)
    requires |contents| == |args| && |ids| == |args| && ReplyVisitable(reply, visit)
    requires |args| > 0 && Collect(args, contents, ids, |args|).Ok?
    ensures Invoke(args, flags, contents, ids, env, false, reply, visit) == BuildFailed
  {
  }

  /** The run gets as far as a request exactly when there are arguments,
      all of them are collected, the request is built, a credential is had
      (or -a) and the reply arrives. */
  lemma CompletedExactly(args: seq<string>, flags: Flags, contents: seq<Option<string>>, ids: seq<Option<string>>,
                         env: Environment, built: bool, reply: Option<Response>, visit: seq<seq<string>>)
    requires |contents| == |args| && |ids| == |args| && ReplyVisitable(reply, visit)
    ensures Invoke(args, flags, contents, ids, env, built, reply, visit).Completed? <==>
      |args| > 0 && (forall i :: 0 <= i < |args| ==> Entry(args[i], contents[i], ids[i]).Ok?)
      && (flags.anonymous || (LoadToken(env.token, env.home, env.dotfile).Ok?
                              && Text.Count(LoadToken(env.token, env.home, env.dotfile).value, ':') == 1))
      && built && reply.Some?
  {
    CollectFailure(args, contents, ids, |args|);
    if !flags.anonymous && LoadToken(env.token, env.home, env.dotfile).Ok? {
      ParseTokenAccepts(LoadToken(env.token, env.home, env.dotfile).value);
    }
  }

  /** In anonymous mode no credential is attached and none is consulted:
      the environment token, HOME and the dotfile make no difference. */
  lemma AnonymousConsultsNothing(args: seq<string>, flags: Flags, contents: seq<Option<string>>, ids: seq<Option<string>>,
                                 env: Environment, env': Environment, built: bool, reply: Option<Response>, visit: seq<seq<string>>)
    requires |contents| == |args| && |ids| == |args| && ReplyVisitable(reply, visit)
    requires flags.anonymous
    ensures Invoke(args, flags, contents, ids, env, built, reply, visit) == Invoke(args, flags, contents, ids, env', built, reply, visit)
    ensures Invoke(args, flags, contents, ids, env, built, reply, visit).Completed? ==>
      Invoke(args, flags, contents, ids, env, built, reply, visit).auth == None
  {
  }

  /** getGist on "a.txt" and "b.txt" keeps both, under their own names. */
  lemma CollectTwoFiles(a: string, b: string)
    ensures Collect(["a.txt", "b.txt"], [Some(a), Some(b)], [None, None], 2)
      == Ok(map["a.txt" := GistFile(a), "b.txt" := GistFile(b)])
  {
    var args, contents, ids: seq<Option<string>> := ["a.txt", "b.txt"], [Some(a), Some(b)], [None, None];
    Text.BaseOfPlainName("a.txt");
    Text.BaseOfPlainName("b.txt");
    assert Entry(args[0], contents[0], ids[0]) == Ok(("a.txt", GistFile(a)));
    assert Entry(args[1], contents[1], ids[1]) == Ok(("b.txt", GistFile(b)));
    assert Collect(args, contents, ids, 1) == Ok(map["a.txt" := GistFile(a)]);
  }

  /** The default description of "a.txt" and "b.txt". */
  lemma JoinTwoNames()
    ensures Text.Join(["a.txt", "b.txt"], ", ") == "a.txt, b.txt"
  {
    assert ["a.txt", "b.txt"][1..] == ["b.txt"];
  }

  /** Two files "a.txt" and "b.txt", no flags: the files are collected, and
      a request that is sent carries the description "a.txt, b.txt", is
      private and holds both files by name. */
  lemma TwoFilesExample(a: string, b: string, env: Environment, built: bool, reply: Option<Response>, visit: seq<seq<string>>)
    requires ReplyVisitable(reply, visit)
    ensures var exit := Invoke(["a.txt", "b.txt"], Flags("", false, false, ""), [Some(a), Some(b)], [None, None], env, built, reply, visit);
      !exit.NoInputs? && !exit.CollectionFailed?
      && (exit.Completed? ==>
            exit.request == GistRequest("a.txt, b.txt", false, map["a.txt" := GistFile(a), "b.txt" := GistFile(b)]))
  {
    var args, flags, contents, ids: seq<Option<string>> := ["a.txt", "b.txt"], Flags("", false, false, ""), [Some(a), Some(b)], [None, None];
    CollectTwoFiles(a, b);
    JoinTwoNames();
    CollectedGoesOn(args, flags, contents, ids, env, built, reply, visit);
    if Invoke(args, flags, contents, ids, env, built, reply, visit).Completed? {
      RequestFollowsFlags(args, flags, contents, ids, env, built, reply, visit);
    }
  }

  /** -a with "-" and "hello" on standard input: once the request is built
      and the reply arrives the
      run is complete, with no credential whatever the environment holds,
      "hello" under the generated name, and "-" as the description. */
  lemma AnonymousStdinExample(id: string, env: Environment, reply: Response, visit: seq<seq<string>>)
    requires ReplyVisitable(Some(reply), visit)
    ensures var exit := Invoke(["-"], Flags("", false, true, ""), [Some("hello")], [Some(id)], env, true, Some(reply), visit);
      exit.Completed? && exit.auth == None && exit.request.files == map[id := GistFile("hello")]
      && exit.request.description == "-"
  {
    var args, contents, ids := ["-"], [Some("hello")], [Some(id)];
    assert Entry(args[0], contents[0], ids[0]) == Ok((id, GistFile("hello")));
    assert Collect(args, contents, ids, 1) == Ok(map[id := GistFile("hello")]);
  }
}
