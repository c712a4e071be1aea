/** The input collector: getGist in gister.go turns the positional arguments
    into the name -> content map of the request. Reading a file or standard
    input, and generating a UUID for standard input, are not modelled: their
    outcomes are given, one per argument. */
module Collector {
  import opened Wrappers
  import Text

  /** One file of the gist (GistFile in gister.go). */
  datatype GistFile = GistFile(content: string)

  /** What went wrong with an argument. */
  datatype Cause = ReadFailed | NameFailed

  /** The error getGist returns: the argument it names ("-" for standard
      input) and what went wrong. */
  datatype GistError = GistError(file: string, cause: Cause)

  /** The argument that stands for standard input. */
  const Stdin := "-"

  /** The request under construction (Gist in gister.go). */
  class Gist {
    var description: string
    var public: bool
    var files: map<string, GistFile>

    constructor (description: string)
      ensures this.description == description && !public && files == map[]
    {
      this.description := description;
      public := false;
      files := map[];
    }
  }

  /** The name under which an argument is stored: the generated name for
      standard input, the base name of the path otherwise. */
  function EntryKey(name: string, id: Option<string>): string
  {
    if name == Stdin then (if id.Some? then id.value else "") else Text.Base(name)
  }

  /** What one argument contributes, given the outcome of reading it (None:
      the read failed) and, for "-", the outcome of generating its name
      (None: generation failed; ignored for other arguments). */
  function Entry(name: string, read: Option<string>, id: Option<string>): (r: Result<(string, GistFile), GistError>)
    ensures r.Err? <==> read.None? || (name == Stdin && id.None?)
    ensures r.Err? ==> r.error.file == name
    ensures r.Err? ==> (r.error.cause == NameFailed <==> read.Some?)
    ensures r.Ok? ==> r.value == (EntryKey(name, id), GistFile(read.value))
  {
    if name == Stdin then
      if read.None? then Err(GistError(Stdin, ReadFailed))
      else if id.None? then Err(GistError(Stdin, NameFailed))
      else Ok((id.value, GistFile(read.value)))
    else
      if read.None? then Err(GistError(name, ReadFailed))
      else Ok((Text.Base(name), GistFile(read.value)))
  }

  /** The outcome of getGist's loop after its first `n` arguments, taken
      left to right: the first failing argument ends it, and each entry
      overwrites any earlier one of the same name. */
  function Collect(names: seq<string>, contents: seq<Option<string>>, ids: seq<Option<string>>, n: nat): Result<map<string, GistFile>, GistError>
    requires |contents| == |names| && |ids| == |names| && n <= |names|
  {
    if n == 0 then Ok(map[])
    else
      match Collect(names, contents, ids, n - 1)
      case Err(e) => Err(e)
      case Ok(m) =>
        match Entry(names[n - 1], contents[n - 1], ids[n - 1])
        case Err(e) => Err(e)
        case Ok(entry) => Ok(m[entry.0 := entry.1])
  }

  /** Once the first `p` arguments fail, every longer run fails the same way. */
  lemma {:induction false} CollectErrPersists(names: seq<string>, contents: seq<Option<string>>, ids: seq<Option<string>>, p: nat, n: nat)
    requires |contents| == |names| && |ids| == |names| && p <= n <= |names|
    requires Collect(names, contents, ids, p).Err?
    ensures Collect(names, contents, ids, n) == Collect(names, contents, ids, p)
    decreases n
  {
    if n > p {
      CollectErrPersists(names, contents, ids, p, n - 1);
    }
  }

  /** The first `n` arguments fail exactly when one of them fails; the error
      is that of the first failing argument, and names it. */
  lemma {:induction false} CollectFailure(names: seq<string>, contents: seq<Option<string>>, ids: seq<Option<string>>, n: nat)
    requires |contents| == |names| && |ids| == |names| && n <= |names|
    ensures Collect(names, contents, ids, n).Err? <==> exists i :: 0 <= i < n && Entry(names[i], contents[i], ids[i]).Err?
    ensures Collect(names, contents, ids, n).Err? ==>
      exists i :: 0 <= i < n && Entry(names[i], contents[i], ids[i]).Err?
        && (forall j :: 0 <= j < i ==> Entry(names[j], contents[j], ids[j]).Ok?)
        && Collect(names, contents, ids, n).error == Entry(names[i], contents[i], ids[i]).error
        && Collect(names, contents, ids, n).error.file == names[i]
    decreases n
  {
    if n > 0 {
      CollectFailure(names, contents, ids, n - 1);
    }
  }

  /** The entry names of the first `n` arguments. */
  function EntryKeys(names: seq<string>, ids: seq<Option<string>>, n: nat): set<string>
    requires |ids| == |names| && n <= |names|
  {
    set i | 0 <= i < n :: EntryKey(names[i], ids[i])
  }

  lemma EntryKeysStep(names: seq<string>, ids: seq<Option<string>>, n: nat)
    requires |ids| == |names| && 0 < n <= |names|
    ensures EntryKeys(names, ids, n) == EntryKeys(names, ids, n - 1) + {EntryKey(names[n - 1], ids[n - 1])}
  {
    var before, after := EntryKeys(names, ids, n - 1), EntryKeys(names, ids, n);
    forall key | key in after ensures key in before || key == EntryKey(names[n - 1], ids[n - 1]) {
      var i :| 0 <= i < n && EntryKey(names[i], ids[i]) == key;
      if i < n - 1 { assert key in before; }
    }
  }

  /** The keys after the first `n` arguments succeed are exactly their entry
      names, so there are as many entries as distinct names. */
  lemma {:induction false} CollectKeys(names: seq<string>, contents: seq<Option<string>>, ids: seq<Option<string>>, n: nat)
    requires |contents| == |names| && |ids| == |names| && n <= |names|
    requires Collect(names, contents, ids, n).Ok?
    ensures Collect(names, contents, ids, n).value.Keys == EntryKeys(names, ids, n)
    ensures |Collect(names, contents, ids, n).value| == |EntryKeys(names, ids, n)|
    decreases n
  {
    if n > 0 {
      CollectKeys(names, contents, ids, n - 1);
      EntryKeysStep(names, ids, n);
      var m' := Collect(names, contents, ids, n - 1).value;
      var m := Collect(names, contents, ids, n).value;
      var k := EntryKey(names[n - 1], ids[n - 1]);
      assert m == m'[k := GistFile(contents[n - 1].value)];
      assert m.Keys == m'.Keys + {k};
    }
  }

  /** After the first `n` arguments succeed, each key holds the content of
      the LAST argument with that name: earlier ones are overwritten. */
  lemma {:induction false} CollectLastWins(names: seq<string>, contents: seq<Option<string>>, ids: seq<Option<string>>, n: nat, i: nat)
    requires |contents| == |names| && |ids| == |names| && i < n <= |names|
    requires Collect(names, contents, ids, n).Ok?
    requires forall j :: i < j < n ==> EntryKey(names[j], ids[j]) != EntryKey(names[i], ids[i])
    ensures contents[i].Some?
    ensures var m := Collect(names, contents, ids, n).value;
      EntryKey(names[i], ids[i]) in m && m[EntryKey(names[i], ids[i])] == GistFile(contents[i].value)
    decreases n
  {
    var m := Collect(names, contents, ids, n).value;
    if i < n - 1 {
      CollectLastWins(names, contents, ids, n - 1, i);
      assert EntryKey(names[n - 1], ids[n - 1]) != EntryKey(names[i], ids[i]);
    }
  }

  /** The name of a path argument holds no slash, unless the path is made of
      slashes only (whose base name is "/"). */
  lemma PathKeyHasNoSlash(name: string, id: Option<string>)
    requires name != Stdin
    ensures '/' in EntryKey(name, id) <==> name != "" && forall k :: 0 <= k < |name| ==> name[k] == '/'
  {
    Text.BaseSlash(name);
  }

  /** A "-" argument whose generated name no later argument reuses ends up
      in the gist under that name, holding what was read from standard input. */
  lemma StdinEntryKept(names: seq<string>, contents: seq<Option<string>>, ids: seq<Option<string>>, i: nat)
    requires |contents| == |names| && |ids| == |names| && i < |names|
    requires Collect(names, contents, ids, |names|).Ok? && names[i] == Stdin
    requires forall j :: i < j < |names| ==> EntryKey(names[j], ids[j]) != EntryKey(names[i], ids[i])
    ensures ids[i].Some? && contents[i].Some?
    ensures var m := Collect(names, contents, ids, |names|).value;
      ids[i].value in m && m[ids[i].value] == GistFile(contents[i].value)
  {
    CollectFailure(names, contents, ids, |names|);
    CollectLastWins(names, contents, ids, |names|, i);
    assert Entry(names[i], contents[i], ids[i]).Ok?;
  }

  /** The default description lists the arguments, "-" included, and gives
      them back when split on ", ", as long as none of them holds a ','. */
  lemma DescriptionListsArguments(names: seq<string>)
    requires |names| > 0 && forall i :: 0 <= i < |names| ==> ',' !in names[i]
    ensures Text.Split(Text.Join(names, ", "), ", ") == names
  {
    Text.SplitJoin(names, ", ");
  }

  /** getGist: a fresh request whose description is the arguments joined
      with ", " (gister.go takes them from flag.Args(), which is `names` at
      its only call), not public, whose files are filled argument by
      argument; on the first failure, no request and the error. */
  method GetGist(names: seq<string>, contents: seq<Option<string>>, ids: seq<Option<string>>) returns (gist: Gist?, err: Option<GistError>)
    requires |contents| == |names| && |ids| == |names|
    ensures Collect(names, contents, ids, |names|).Ok? ==>
      gist != null && fresh(gist) && err == None
      && gist.files == Collect(names, contents, ids, |names|).value
      && gist.description == Text.Join(names, ", ") && !gist.public
    ensures Collect(names, contents, ids, |names|).Err? ==>
      gist == null && err == Some(Collect(names, contents, ids, |names|).error)
  {
    gist := new Gist(Text.Join(names, ", "));
    var i := 0;
    while i < |names|
      invariant 0 <= i <= |names|
      invariant Collect(names, contents, ids, i) == Ok(gist.files)
      invariant gist.description == Text.Join(names, ", ") && !gist.public
    {
      var filename := names[i];
      if filename == Stdin {
        if contents[i].None? {
          CollectErrPersists(names, contents, ids, i + 1, |names|);
          return null, Some(GistError(Stdin, ReadFailed));
        }
        var content := contents[i].value;
        if ids[i].None? {
          CollectErrPersists(names, contents, ids, i + 1, |names|);
          return null, Some(GistError(Stdin, NameFailed));
        }
        var uu := ids[i].value;
        gist.files := gist.files[uu := GistFile(content)];
        i := i + 1;
        continue;
      }
      if contents[i].None? {
        CollectErrPersists(names, contents, ids, i + 1, |names|);
        return null, Some(GistError(filename, ReadFailed));
      }
      var content := contents[i].value;
      gist.files := gist.files[Text.Base(filename) := GistFile(content)];
      i := i + 1;
    }
    err := None;
  }
}
