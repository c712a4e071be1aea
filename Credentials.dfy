/** The credential resolver: loadToken in gister.go picks the raw
    "username:token" string from the environment or from the dotfile, and
    main splits it on ':'. Reading the environment and the dotfile is not
    modelled: their outcomes are given. */
module Credentials {
  import opened Wrappers
  import Text

  /** The pair sent as HTTP Basic authentication. */
  datatype Credential = Credential(username: string, secret: string)

  /** Why no credential could be had: the dotfile (named by its path) could
      not be read, or the token is not of the form "username:token". */
  datatype TokenError = DotfileUnreadable(file: string) | Malformed

  /** The dotfile's path, filepath.Join($HOME, ".gist"), for a home directory
      that needs no cleaning. */
  function DotfilePath(home: string): string
  {
    if home == "" then ".gist"
    else if home[|home| - 1] == '/' then home + ".gist"
    else home + "/.gist"
  }

  /** loadToken: a non-empty GISTER_GITHUB_TOKEN value (`envToken`; empty
      when the variable is unset), else the dotfile's content (`dotfile`;
      None when it cannot be read) without surrounding white space. */
  function LoadToken(envToken: string, home: string, dotfile: Option<string>): (r: Result<string, TokenError>)
    ensures r.Err? <==> envToken == "" && dotfile.None?
    ensures r.Err? ==> r.error == DotfileUnreadable(DotfilePath(home))
  {
    if |envToken| != 0 then Ok(envToken)
    else if dotfile.None? then Err(DotfileUnreadable(DotfilePath(home)))
    else Ok(Text.TrimSpace(dotfile.value))
  }

  /** A non-empty environment value is the token, verbatim; what the dotfile
      holds, or whether it can be read at all, makes no difference. */
  lemma EnvironmentWins(envToken: string, home: string, home': string, dotfile: Option<string>, dotfile': Option<string>)
    requires envToken != ""
    ensures LoadToken(envToken, home, dotfile) == Ok(envToken)
    ensures LoadToken(envToken, home, dotfile) == LoadToken(envToken, home', dotfile')
  {
  }

  /** Without an environment value the token is the dotfile's content with
      its leading and trailing white space removed, and nothing else. */
  lemma DotfileTrimmed(home: string, content: string)
    ensures LoadToken("", home, Some(content)).Ok?
    ensures var t := LoadToken("", home, Some(content)).value;
      var i := Text.LeadingSpaces(content);
      i + |t| <= |content| && content[i..i + |t|] == t
      && (t == [] || (!Text.IsSpace(t[0]) && !Text.IsSpace(t[|t| - 1])))
      && (forall k :: 0 <= k < |content| && !(i <= k < i + |t|) ==> Text.IsSpace(content[k]))
  {
    Text.TrimSpaceSpec(content);
  }

  /** main's check: the token is split on ':' and must give exactly two
      words, the username and the secret. */
  function ParseToken(token: string): Result<Credential, TokenError>
  {
    var words := Text.Split(token, ":");
    if |words| != 2 then Err(Malformed) else Ok(Credential(words[0], words[1]))
  }

  /** A token is accepted exactly when it holds exactly one ':'; either side
      of it may be empty. */
  lemma ParseTokenAccepts(token: string)
    ensures ParseToken(token).Ok? <==> Text.Count(token, ':') == 1
  {
    Text.SplitCount(token, ':');
  }

  /** An accepted token is the username, ':', the secret, and neither part
      holds a ':'. */
  lemma ParseTokenParts(token: string)
    requires ParseToken(token).Ok?
    ensures var c := ParseToken(token).value;
      token == c.username + ":" + c.secret && ':' !in c.username && ':' !in c.secret
  {
    Text.SplitTwo(token, ':');
  }

  /** Writing a credential whose parts hold no ':' as "username:secret" and
      parsing it gives it back. */
  lemma ParseTokenRoundTrip(c: Credential)
    requires ':' !in c.username && ':' !in c.secret
    ensures ParseToken(c.username + ":" + c.secret) == Ok(c)
  {
    var xs := [c.username, c.secret];
    assert Text.Join(xs, ":") == c.username + ":" + c.secret by {
      assert xs[1..] == [c.secret];
    }
    Text.SplitJoin(xs, ":");
  }

  /** The credential step of main: none in anonymous mode (and nothing is
      consulted), otherwise the loaded token, parsed. */
  function Authenticate(anonymous: bool, envToken: string, home: string, dotfile: Option<string>): (r: Result<Option<Credential>, TokenError>)
    ensures anonymous ==> r == Ok(None)
    ensures !anonymous ==> (r.Ok? <==>
      LoadToken(envToken, home, dotfile).Ok? && Text.Count(LoadToken(envToken, home, dotfile).value, ':') == 1)
    ensures !anonymous && r.Ok? ==>
      r.value.Some? && LoadToken(envToken, home, dotfile).Ok?
      && ParseToken(LoadToken(envToken, home, dotfile).value) == Ok(r.value.value)
    ensures !anonymous && r.Err? ==>
      r.error == (if LoadToken(envToken, home, dotfile).Err? then LoadToken(envToken, home, dotfile).error else Malformed)
  {
    if anonymous then Ok(None)
    else
      match LoadToken(envToken, home, dotfile)
      case Err(e) => Err(e)
      case Ok(token) =>
        ParseTokenAccepts(token);
        match ParseToken(token)
        case Err(e) => Err(e)
        case Ok(c) => Ok(Some(c))
  }

  /** "alice:tok123" gives the username "alice" and the secret "tok123". */
  lemma AcceptedTokenExample()
    ensures ParseToken("alice:tok123") == Ok(Credential("alice", "tok123"))
  {
    assert "alice:tok123" == "alice" + ":" + "tok123";
    ParseTokenRoundTrip(Credential("alice", "tok123"));
  }

  /** "alice" (no ':') and "a:b:c" (two) are refused. */
  lemma RefusedTokenExamples()
    ensures ParseToken("alice") == Err(Malformed)
    ensures ParseToken("a:b:c") == Err(Malformed)
  {
    ParseTokenAccepts("alice");
    ParseTokenAccepts("a:b:c");
  }
}
