/** The document store (files.py): the site's four documents under `<root>/data`, each loaded
    with a hard-coded default that is written back when the file is missing or unreadable.
    The file system is a map from path to file text; JSON reading and writing are an abstract
    pair `parse` (None when the text is not valid JSON) and `serialize`. */
module Files {
  import opened Wrappers
  import opened Strings

  /** A JSON document as `json.load` returns it; numbers are limited to integers. */
  datatype Json =
    | JNull
    | JBool(b: bool)
    | JInt(i: int)
    | JStr(s: string)
    | JArray(items: seq<Json>)
    | JObject(members: seq<(string, Json)>)

  /** `os.path.join(a, b)` for two components. */
  function Join(a: string, b: string): (r: string)
    ensures EndsWith(r, b)
  {
    if StartsWith(b, "/") then b
    else if a == [] || EndsWith(a, "/") then a + b
    else
      assert (a + "/" + b)[|a| + 1..] == b;
      a + "/" + b
  }

  function DataDir(root: string): string { Join(root, "data") }
  function InfoDir(root: string): string { Join(DataDir(root), "info") }

  function PicturesDir(root: string): (p: string)
    ensures EndsWith(p, "pictures")
  {
    Join(DataDir(root), "pictures")
  }

  function ConfigPath(root: string): (p: string)
    ensures EndsWith(p, "config.json")
  {
    Join(DataDir(root), "config.json")
  }

  function DetailsPath(root: string): (p: string)
    ensures EndsWith(p, "details.json")
  {
    Join(InfoDir(root), "details.json")
  }

  function ModsPath(root: string): (p: string)
    ensures EndsWith(p, "mods.txt")
  {
    Join(InfoDir(root), "mods.txt")
  }

  function CustomInfoPath(root: string): (p: string)
    ensures EndsWith(p, "custom.json")
  {
    Join(InfoDir(root), "custom.json")
  }

  lemma DifferentEndings(p: string, a: string, b: string)
    requires |a| <= |b| && b[|b| - |a|..] != a
    ensures !(EndsWith(p, a) && EndsWith(p, b))
  {
    if EndsWith(p, a) && EndsWith(p, b) {
      EndsWithBoth(p, a, b);
    }
  }

  /** The four document paths and the pictures directory are pairwise distinct, whatever the
      root: they end in different names. */
  lemma DocumentPathsDistinct(root: string)
    ensures ConfigPath(root) != DetailsPath(root) && ConfigPath(root) != ModsPath(root)
    ensures ConfigPath(root) != CustomInfoPath(root) && DetailsPath(root) != ModsPath(root)
    ensures DetailsPath(root) != CustomInfoPath(root) && ModsPath(root) != CustomInfoPath(root)
    ensures PicturesDir(root) != ConfigPath(root) && PicturesDir(root) != DetailsPath(root)
    ensures PicturesDir(root) != ModsPath(root) && PicturesDir(root) != CustomInfoPath(root)
  {
    var config, details, mods, custom := "config.json", "details.json", "mods.txt", "custom.json";
    assert details[1..] != config by { assert details[1] != config[0]; }
    assert config[3..] != mods by { assert config[|config| - 1] != mods[|mods| - 1]; }
    assert custom != config by { assert custom[1] != config[1]; }
    assert details[4..] != mods by { assert details[|details| - 1] != mods[|mods| - 1]; }
    assert details[1..] != custom by { assert details[1] != custom[0]; }
    assert custom[3..] != mods by { assert custom[|custom| - 1] != mods[|mods| - 1]; }
    DifferentEndings(ConfigPath(root), config, details);
    DifferentEndings(ConfigPath(root), mods, config);
    DifferentEndings(ConfigPath(root), config, custom);
    DifferentEndings(DetailsPath(root), mods, details);
    DifferentEndings(DetailsPath(root), custom, details);
    DifferentEndings(ModsPath(root), mods, custom);
    var pictures := "pictures";
    assert config[3..] != pictures by { assert config[|config| - 1] != pictures[|pictures| - 1]; }
    assert details[4..] != pictures by { assert details[|details| - 1] != pictures[|pictures| - 1]; }
    assert mods != pictures by { assert mods[0] != pictures[0]; }
    assert custom[3..] != pictures by { assert custom[|custom| - 1] != pictures[|pictures| - 1]; }
    DifferentEndings(PicturesDir(root), pictures, config);
    DifferentEndings(PicturesDir(root), pictures, details);
    DifferentEndings(PicturesDir(root), pictures, mods);
    DifferentEndings(PicturesDir(root), pictures, custom);
  }

  function InfoRow(name: string, value: string): Json {
    JObject([("label", JStr(name)), ("value", JStr(value))])
  }

  const DefaultConfig: Json := JObject([
    ("server_name", JStr("Minecraft Server")),
    ("server_ip", JStr("12345")),
    ("discord_invite", JStr("https://discord.gg/INVITE")),
    ("allowed_extensions", JArray([JStr("png"), JStr("jpg"), JStr("jpeg"), JStr("gif"), JStr("webp")])),
    ("max_file_size", JInt(20)),
    ("file_size_unit", JStr("MB"))
  ])

  const DefaultDetails: Json := JObject([
    ("info_rows", JArray([InfoRow("Minecraft Version", "1.21.11"), InfoRow("IP", "{ip}")]))
  ])

  const DefaultCustomInfo: Json := JObject([("sections", JArray([]))])

  const DefaultMods: string := ""

  /** What a load returns and the file system after it. */
  datatype Loaded<T> = Loaded(value: T, files: map<string, string>)

  /** A JSON document load: the parsed file when it exists and parses, otherwise the default,
      which is then written to the path. */
  function LoadOrDefault(files: map<string, string>, path: string, default: Json,
                         parse: string -> Option<Json>, serialize: Json -> string): (l: Loaded<Json>)
    ensures l.value == default || (path in files && parse(files[path]) == Some(l.value))
    ensures path in l.files
    ensures parse(l.files[path]) == Some(l.value) || (l.value == default && l.files[path] == serialize(default))
    ensures l.files.Keys == files.Keys + {path}
    ensures forall q :: q in files && q != path ==> l.files[q] == files[q]
  {
    if path in files && parse(files[path]).Some? then Loaded(parse(files[path]).value, files)
    else Loaded(default, files[path := serialize(default)])
  }

  /** A read in Python's text mode: "\r\n" and a lone "\r" both come back as "\n". */
  function ReadText(t: string): (r: string)
    ensures '\r' !in r
    ensures '\r' !in t ==> r == t
    decreases |t|
  {
    if t == [] then []
    else if t[0] == '\r' then "\n" + ReadText(if |t| > 1 && t[1] == '\n' then t[2..] else t[1..])
    else [t[0]] + ReadText(t[1..])
  }

  /** The mods load: the file's text when it exists, otherwise an empty file is created. */
  function LoadText(files: map<string, string>, path: string): (l: Loaded<string>)
    ensures '\r' !in l.value
    ensures path in files ==> l.files == files
    ensures path !in files ==> l.value == [] && l.files == files[path := []]
  {
    if path in files then Loaded(ReadText(files[path]), files)
    else Loaded(DefaultMods, files[path := DefaultMods])
  }

  /** A file that exists and parses is returned and nothing is written. */
  lemma LoadParsed(files: map<string, string>, path: string, default: Json, doc: Json,
                   parse: string -> Option<Json>, serialize: Json -> string)
    requires path in files && parse(files[path]) == Some(doc)
    ensures LoadOrDefault(files, path, default, parse, serialize) == Loaded(doc, files)
  {
  }

  /** A file that is missing or does not parse yields the default, the path then holds the
      default's text, and no other file changes; a corrupt file is overwritten. */
  lemma LoadFallsBack(files: map<string, string>, path: string, default: Json,
                      parse: string -> Option<Json>, serialize: Json -> string)
    requires path !in files || parse(files[path]).None?
    ensures var l := LoadOrDefault(files, path, default, parse, serialize);
            && l.value == default
            && l.files.Keys == files.Keys + {path} && l.files[path] == serialize(default)
            && forall q :: q in files && q != path ==> l.files[q] == files[q]
  {
  }

  /** Saving a document and loading it back returns it, provided reading back what is
      written gives the same document. */
  lemma SaveThenLoad(files: map<string, string>, path: string, doc: Json, default: Json,
                     parse: string -> Option<Json>, serialize: Json -> string)
    requires parse(serialize(doc)) == Some(doc)
    ensures var saved := files[path := serialize(doc)];
            LoadOrDefault(saved, path, default, parse, serialize) == Loaded(doc, saved)
  {
  }

  /** A second load returns what the first did and writes nothing, because the first one
      wrote out the default when it had to. */
  lemma LoadTwice(files: map<string, string>, path: string, default: Json,
                  parse: string -> Option<Json>, serialize: Json -> string)
    requires parse(serialize(default)) == Some(default)
    ensures var first := LoadOrDefault(files, path, default, parse, serialize);
            LoadOrDefault(first.files, path, default, parse, serialize) == first
  {
  }

  /** The mods text: saved text loads back unchanged, with no codec involved, unless it holds
      carriage returns, which the read turns into line feeds; what was loaded is always saved
      and loaded back unchanged. */
  lemma SaveTextThenLoad(files: map<string, string>, path: string, content: string)
    ensures var saved := files[path := content];
            LoadText(saved, path) == Loaded(ReadText(content), saved)
    ensures '\r' !in content ==> LoadText(files[path := content], path).value == content
    ensures var loaded := LoadText(files, path).value;
            LoadText(files[path := loaded], path).value == loaded
  {
  }

  /** The mods text: a second load returns what the first did and writes nothing. */
  lemma LoadTextTwice(files: map<string, string>, path: string)
    ensures LoadText(LoadText(files, path).files, path) == LoadText(files, path)
  {
  }

  /** Writing one path does not change what a load of another path returns. */
  lemma SaveElsewhere(files: map<string, string>, path: string, text: string, other: string,
                      default: Json, parse: string -> Option<Json>, serialize: Json -> string)
    requires other != path
    ensures LoadOrDefault(files[path := text], other, default, parse, serialize).value
            == LoadOrDefault(files, other, default, parse, serialize).value
    ensures LoadText(files[path := text], other).value == LoadText(files, other).value
  {
  }

  /** `FileManager`: the documents of one site root. Creating the directories is not
      modelled; a path exists when it has an entry in `files`. */
  class FileManager {
    const root: string
    const parse: string -> Option<Json>
    const serialize: Json -> string
    var files: map<string, string>

    constructor (root: string, parse: string -> Option<Json>, serialize: Json -> string,
                 files: map<string, string>)
      ensures this.root == root && this.parse == parse && this.serialize == serialize
      ensures this.files == files
    {
      this.root := root;
      this.parse := parse;
      this.serialize := serialize;
      this.files := files;
    }

    method SaveConfig(config: Json)
      modifies this
      ensures files == old(files)[ConfigPath(root) := serialize(config)]
    {
      files := files[ConfigPath(root) := serialize(config)];
    }

    method LoadConfig() returns (config: Json)
      modifies this
      ensures Loaded(config, files) == LoadOrDefault(old(files), ConfigPath(root), DefaultConfig, parse, serialize)
    {
      var path := ConfigPath(root);
      if path in files {
        var parsed := parse(files[path]);
        if parsed.Some? {
          return parsed.value;
        }
      }
      SaveConfig(DefaultConfig);
      config := DefaultConfig;
    }

    method SaveDetails(details: Json)
      modifies this
      ensures files == old(files)[DetailsPath(root) := serialize(details)]
    {
      files := files[DetailsPath(root) := serialize(details)];
    }

    method LoadDetails() returns (details: Json)
      modifies this
      ensures Loaded(details, files) == LoadOrDefault(old(files), DetailsPath(root), DefaultDetails, parse, serialize)
    {
      var path := DetailsPath(root);
      if path in files {
        var parsed := parse(files[path]);
        if parsed.Some? {
          return parsed.value;
        }
      }
      SaveDetails(DefaultDetails);
      details := DefaultDetails;
    }

    method SaveMods(content: string)
      modifies this
      ensures files == old(files)[ModsPath(root) := content]
    {
      files := files[ModsPath(root) := content];
    }

    /** Unlike the JSON documents, an existing mods file is returned as read, never replaced. */
    method LoadMods() returns (content: string)
      modifies this
      ensures Loaded(content, files) == LoadText(old(files), ModsPath(root))
    {
      var path := ModsPath(root);
      if path in files {
        return ReadText(files[path]);
      }
      files := files[path := DefaultMods];
      content := DefaultMods;
    }

    method SaveCustomInfo(customInfo: Json)
      modifies this
      ensures files == old(files)[CustomInfoPath(root) := serialize(customInfo)]
    {
      files := files[CustomInfoPath(root) := serialize(customInfo)];
    }

    method LoadCustomInfo() returns (customInfo: Json)
      modifies this
      ensures Loaded(customInfo, files) == LoadOrDefault(old(files), CustomInfoPath(root), DefaultCustomInfo, parse, serialize)
    {
      var path := CustomInfoPath(root);
      if path in files {
        var parsed := parse(files[path]);
        if parsed.Some? {
          return parsed.value;
        }
      }
      SaveCustomInfo(DefaultCustomInfo);
      customInfo := DefaultCustomInfo;
    }
  }
}
