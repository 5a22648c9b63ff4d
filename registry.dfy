/** The catalogue of model files: local paths found at start-up or
    registered after a download, and remote models known by name with the
    URL to fetch them from. */
module Registry {
  import opened Wrappers
  import opened Strings

  /** The extension of model files; `models()` strips this many characters. */
  const ModelExtension: string := ".gguf"

  /** The one remote model the registry knows of when it is created. */
  const DefaultRemoteName: string := "capybarahermes-2.5-mistral-7b.Q4_0"
  const DefaultRemoteDir: string := "https://huggingface.co/TheBloke/CapybaraHermes-2.5-Mistral-7B-GGUF/resolve/main"
  /** "https://huggingface.co/TheBloke/CapybaraHermes-2.5-Mistral-7B-GGUF/resolve/main/capybarahermes-2.5-mistral-7b.Q4_0.gguf" */
  const DefaultRemoteUrl: string := DefaultRemoteDir + "/" + DefaultRemoteName + ModelExtension

  /** `models()` can name this path: it has a last segment from which five
      characters can be removed (otherwise the source traps). */
  predicate HasModelName(path: string): (named: bool)
    ensures named ==> exists i :: 0 <= i < |path| && path[i] != '/'
  {
    LastSegment(path).Some? && |LastSegment(path).value| >= |ModelExtension|
  }

  /** The path is a model file: its last segment is a non-empty name followed
      by the model extension. Both start-up scans only ever yield such paths. */
  predicate IsModelFile(path: string): (isModel: bool)
    ensures isModel ==> HasModelName(path)
  {
    var seg := LastSegment(path);
    seg.Some? && |seg.value| > |ModelExtension|
    && seg.value[|seg.value| - |ModelExtension|..] == ModelExtension
  }

  /** The name `models()` lists for a local path: its last segment without
      the final five characters. */
  function DerivedName(path: string): (name: string)
    requires HasModelName(path)
    ensures name <= LastSegment(path).value
    ensures |name| + |ModelExtension| == |LastSegment(path).value|
    ensures '/' !in name
    ensures IsModelFile(path) ==> name != [] && name + ModelExtension == LastSegment(path).value
  {
    var seg := LastSegment(path).value;
    var name := seg[..|seg| - |ModelExtension|];
    assert seg == name + seg[|seg| - |ModelExtension|..];
    name
  }

  /** A path whose file is `name.gguf` is listed as `name`. */
  lemma DerivedNameOfModelFile(dir: string, name: string)
    requires '/' !in name
    ensures HasModelName(dir + "/" + name + ModelExtension)
    ensures IsModelFile(dir + "/" + name + ModelExtension) <==> name != []
    ensures DerivedName(dir + "/" + name + ModelExtension) == name
  {
    var file := name + ModelExtension;
    assert '/' !in file by {
      assert forall i :: 0 <= i < |file| ==> file[i] == (if i < |name| then name[i] else ModelExtension[i - |name|]);
    }
    assert dir + "/" + name + ModelExtension == dir + "/" + file;
    LastSegmentOfChild(dir, file);
    assert file[..|file| - |ModelExtension|] == name;
    assert file[|file| - |ModelExtension|..] == ModelExtension;
  }

  predicate AllNamed(paths: seq<string>)
  {
    forall i :: 0 <= i < |paths| ==> HasModelName(paths[i])
  }

  /** The derived name of every local path, in order (the `map` in `models()`). */
  function DerivedNames(paths: seq<string>): (names: seq<string>)
    requires AllNamed(paths)
    ensures |names| == |paths|
    ensures forall i :: 0 <= i < |paths| ==> names[i] == DerivedName(paths[i])
  {
    if paths == [] then [] else [DerivedName(paths[0])] + DerivedNames(paths[1..])
  }

  /** The set of model names shown to the user: derived local names and
      remote names, duplicates collapsed. */
  function Catalog(paths: seq<string>, remote: map<string, string>): (names: set<string>)
    requires AllNamed(paths)
    ensures forall i :: 0 <= i < |paths| ==> DerivedName(paths[i]) in names
    ensures remote.Keys <= names
    ensures forall n :: n in names ==> n in remote || exists i :: 0 <= i < |paths| && DerivedName(paths[i]) == n
  {
    var local := DerivedNames(paths);
    (set n | n in local) + remote.Keys
  }

  /** Registering a path adds exactly its derived name to the catalogue. */
  lemma CatalogRegister(paths: seq<string>, remote: map<string, string>, p: string)
    requires AllNamed(paths) && HasModelName(p)
    ensures AllNamed(paths + [p])
    ensures Catalog(paths + [p], remote) == Catalog(paths, remote) + {DerivedName(p)}
    ensures p in paths ==> Catalog(paths + [p], remote) == Catalog(paths, remote)
  {
    var after := paths + [p];
    assert forall i :: 0 <= i < |paths| ==> after[i] == paths[i];
    assert after[|paths|] == p;
    forall n | n in Catalog(after, remote)
      ensures n in Catalog(paths, remote) + {DerivedName(p)}
    {
      if n !in remote {
        var i :| 0 <= i < |after| && DerivedName(after[i]) == n;
        if i < |paths| { assert DerivedName(paths[i]) == n; }
      }
    }
  }

  /** The position of the first path that contains `name`, if any: the
      path `getModelLocalPath` answers with. */
  function FirstMatch(paths: seq<string>, name: string): (r: Option<nat>)
    ensures r.None? <==> forall i :: 0 <= i < |paths| ==> !Contains(paths[i], name)
    ensures r.Some? ==> r.value < |paths| && Contains(paths[r.value], name)
    ensures r.Some? ==> forall j :: 0 <= j < r.value ==> !Contains(paths[j], name)
  {
    if paths == [] then None
    else if Contains(paths[0], name) then Some(0)
    else
      match FirstMatch(paths[1..], name)
      case None => None
      case Some(k) => Some(k + 1)
  }

  /** Appending a path never changes an existing first match; without one,
      the new path is the match exactly when it contains the name. */
  lemma {:induction false} FirstMatchAppend(paths: seq<string>, name: string, p: string)
    ensures FirstMatch(paths, name).Some? ==> FirstMatch(paths + [p], name) == FirstMatch(paths, name)
    ensures FirstMatch(paths, name).None? ==>
      FirstMatch(paths + [p], name) == (if Contains(p, name) then Some(|paths|) else None)
  {
    if paths != [] {
      assert (paths + [p])[0] == paths[0];
      assert (paths + [p])[1..] == paths[1..] + [p];
      FirstMatchAppend(paths[1..], name, p);
    }
  }

  /** After `p` is registered, every non-empty piece of it is found. */
  lemma RegisteredSlicesExist(paths: seq<string>, p: string, i: nat, j: nat)
    requires i <= j <= |p|
    ensures FirstMatch(paths + [p], p[i..j]).Some?
  {
    ContainsSlice(p, i, j);
    assert (paths + [p])[|paths|] == p;
  }

  /** A single local file `dir/N.gguf` and no remote entries list exactly `N`. */
  lemma OnlyFileNameListed(dir: string, name: string, other: string)
    requires '/' !in name && other != name
    ensures AllNamed([dir + "/" + name + ModelExtension])
    ensures other !in Catalog([dir + "/" + name + ModelExtension], map[])
  {
    DerivedNameOfModelFile(dir, name);
  }

  /** Matching is by containment, not by name: a registered `llama-7b-v2`
      makes `llama-7b` exist. */
  lemma PrefixNameFalsePositive()
    ensures FirstMatch(["/models/llama-7b-v2.gguf"], "llama-7b") == Some(0)
  {
    var p := "/models/llama-7b-v2.gguf";
    assert p[8..16] == "llama-7b";
    ContainsSlice(p, 8, 16);
  }

  /** That match is a false positive: `llama-7b` is not a listed model name. */
  lemma PrefixNameNotListed()
    ensures AllNamed(["/models/llama-7b-v2.gguf"])
    ensures "llama-7b" !in Catalog(["/models/llama-7b-v2.gguf"], map[])
  {
    assert "/models/llama-7b-v2.gguf" == "/models" + "/" + "llama-7b-v2" + ModelExtension;
    OnlyFileNameListed("/models", "llama-7b-v2", "llama-7b");
  }

  /** Where a finished download is stored: the download directory joined
      with the last segment of the request URL. */
  function DownloadedPath(downloadDir: string, url: string): (path: string)
    requires LastSegment(url).Some?
    ensures LastSegment(path) == LastSegment(url)
  {
    LastSegmentOfChild(downloadDir, LastSegment(url).value);
    downloadDir + "/" + LastSegment(url).value
  }

  /** The file name in the default remote URL is the remote name plus the
      model extension. */
  lemma DefaultUrlFileName()
    ensures LastSegment(DefaultRemoteUrl) == Some(DefaultRemoteName + ModelExtension)
  {
    DerivedNameOfModelFile(DefaultRemoteDir, DefaultRemoteName);
  }

  /** Downloading the default remote model and registering it leaves the
      catalogue as it was, because the file's derived name is the remote
      name; afterwards the name exists locally. */
  lemma DefaultDownloadMatchesRemoteName(paths: seq<string>, downloadDir: string)
    requires AllNamed(paths)
    ensures LastSegment(DefaultRemoteUrl).Some?
    ensures HasModelName(DownloadedPath(downloadDir, DefaultRemoteUrl))
    ensures DerivedName(DownloadedPath(downloadDir, DefaultRemoteUrl)) == DefaultRemoteName
    ensures AllNamed(paths + [DownloadedPath(downloadDir, DefaultRemoteUrl)])
    ensures Catalog(paths + [DownloadedPath(downloadDir, DefaultRemoteUrl)], map[DefaultRemoteName := DefaultRemoteUrl])
         == Catalog(paths, map[DefaultRemoteName := DefaultRemoteUrl])
    ensures FirstMatch(paths + [DownloadedPath(downloadDir, DefaultRemoteUrl)], DefaultRemoteName).Some?
  {
    DefaultUrlFileName();
    var p := DownloadedPath(downloadDir, DefaultRemoteUrl);
    assert p == downloadDir + "/" + DefaultRemoteName + ModelExtension;
    DerivedNameOfModelFile(downloadDir, DefaultRemoteName);
    RegisterDownloadedRemote(paths, map[DefaultRemoteName := DefaultRemoteUrl], downloadDir, DefaultRemoteName);
  }

  /** A remote model downloaded to `dir/name.gguf` and registered: the
      catalogue is unchanged, the name now exists, and if it matched no path
      before, the lookup resolves to the new path. */
  lemma RegisterDownloadedRemote(paths: seq<string>, remote: map<string, string>, dir: string, name: string)
    requires AllNamed(paths) && name in remote && '/' !in name
    ensures AllNamed(paths + [dir + "/" + name + ModelExtension])
    ensures Catalog(paths + [dir + "/" + name + ModelExtension], remote) == Catalog(paths, remote)
    ensures FirstMatch(paths + [dir + "/" + name + ModelExtension], name).Some?
    ensures FirstMatch(paths, name).None? ==>
      FirstMatch(paths + [dir + "/" + name + ModelExtension], name) == Some(|paths|)
  {
    var p := dir + "/" + name + ModelExtension;
    DerivedNameOfModelFile(dir, name);
    CatalogRegister(paths, remote, p);
    assert p[|dir| + 1..|dir| + 1 + |name|] == name;
    RegisteredSlicesExist(paths, p, |dir| + 1, |dir| + 1 + |name|);
    FirstMatchAppend(paths, name, p);
  }

  /** The registry object: an append-only list of local model paths and a
      map from remote model name to download URL. */
  class ModelRegistry {
    var modelPaths: seq<string>
    var remotedModelPaths: map<string, string>

    /** `bundled` are the model files shipped with the app; `downloaded` is
        the model files listed in the download directory, None when reading it failed. */
    constructor (bundled: seq<string>, downloaded: Option<seq<string>>)
      requires forall i :: 0 <= i < |bundled| ==> IsModelFile(bundled[i])
      requires downloaded.Some? ==> forall i :: 0 <= i < |downloaded.value| ==> IsModelFile(downloaded.value[i])
      ensures modelPaths == bundled + (if downloaded.Some? then downloaded.value else [])
      ensures remotedModelPaths == map[DefaultRemoteName := DefaultRemoteUrl]
      ensures AllNamed(modelPaths)
    {
      remotedModelPaths := map[DefaultRemoteName := DefaultRemoteUrl];
      modelPaths := bundled;
      match downloaded {
        case Some(files) => modelPaths := modelPaths + files;
        case None =>
      }
    }

    /** Appends a local path; duplicates are kept. */
    method Register(modelPath: string)
      modifies this`modelPaths
      ensures modelPaths == old(modelPaths) + [modelPath]
    {
      modelPaths := modelPaths + [modelPath];
    }

    /** The catalogue as a list without duplicates, in no particular order. */
    method Models() returns (names: seq<string>)
      requires AllNamed(modelPaths)
      ensures forall i, j :: 0 <= i < j < |names| ==> names[i] != names[j]
      ensures forall n :: n in names <==> n in Catalog(modelPaths, remotedModelPaths)
    {
      var pending := Catalog(modelPaths, remotedModelPaths);
      names := [];
      while pending != {}
        invariant forall n :: n in names <==> n in Catalog(modelPaths, remotedModelPaths) && n !in pending
        invariant pending <= Catalog(modelPaths, remotedModelPaths)
        invariant forall i, j :: 0 <= i < j < |names| ==> names[i] != names[j]
        decreases pending
      {
        var n :| n in pending;
        names := names + [n];
        pending := pending - {n};
      }
    }

    /** Whether some local path contains the name. */
    method Exists(modelName: string) returns (found: bool)
      requires modelName != []
      ensures found <==> exists i :: 0 <= i < |modelPaths| && Contains(modelPaths[i], modelName)
    {
      for k := 0 to |modelPaths|
        invariant forall j :: 0 <= j < k ==> !Contains(modelPaths[j], modelName)
      {
        if Contains(modelPaths[k], modelName) {
          return true;
        }
      }
      return false;
    }

    /** The first local path, in registration order, that contains the name. */
    method GetModelLocalPath(modelName: string) returns (path: Option<string>)
      requires modelName != []
      ensures path.None? <==> forall i :: 0 <= i < |modelPaths| ==> !Contains(modelPaths[i], modelName)
      ensures path.Some? ==> path.value in modelPaths && Contains(path.value, modelName)
      ensures path == (match FirstMatch(modelPaths, modelName)
                       case None => None
                       case Some(i) => Some(modelPaths[i]))
    {
      for k := 0 to |modelPaths|
        invariant forall j :: 0 <= j < k ==> !Contains(modelPaths[j], modelName)
      {
        if Contains(modelPaths[k], modelName) {
          return Some(modelPaths[k]);
        }
      }
      return None;
    }
  }
}
