/**
 * Where the library keeps a story's files: filename sanitising, template substitution in the
 * manner of Python's `str.format`, and the story, chapter and compiled-ebook paths built from the
 * configured templates. The library root (an absolute path after resolution) is an input.
 */
module LibraryPaths {
  import opened Wrappers
  import opened Text
  import opened Store

  /** The configuration, as the string settings it holds. */
  type Config = map<string, string>

  /** `config.get(key, default)`. */
  function Setting(cfg: Config, key: string, default: string): string
  {
    if key in cfg then cfg[key] else default
  }

  /** A value placed in a formatting context: a string, an integer or Python's `None`. */
  datatype Value = Str(s: string) | Int(i: int) | NoneValue

  /** `str(v)`. */
  function ValueText(v: Value): string
  {
    match v
    case Str(s) => s
    case Int(i) => IntToString(i)
    case NoneValue => "None"
  }

  /** A character `sanitize_filename` keeps. */
  predicate SafeChar(c: char) { IsAlnum(c) || c == ' ' || c == '-' || c == '_' || c == '.' }

  predicate AllSafe(s: string) { forall i :: 0 <= i < |s| ==> SafeChar(s[i]) }

  /** The characters of `name` that `sanitize_filename` keeps, in order. */
  function KeepSafe(name: string): (r: string)
    ensures AllSafe(r) && |r| <= |name|
    ensures AllSafe(name) ==> r == name
  {
    if name == [] then []
    else if SafeChar(name[0]) then [name[0]] + KeepSafe(name[1..])
    else KeepSafe(name[1..])
  }

  /** Every safe character is kept and every other one dropped, in order: the kept characters
      of a concatenation are those of its parts. */
  lemma {:induction false} KeepSafeAppend(a: string, b: string)
    ensures KeepSafe(a + b) == KeepSafe(a) + KeepSafe(b)
    decreases |a|
  {
    if a == [] {
      assert a + b == b;
    } else {
      var ab := a + b;
      assert ab[0] == a[0] && ab[1..] == a[1..] + b;
      KeepSafeAppend(a[1..], b);
    }
  }

  /** One character is kept exactly when it is safe. */
  lemma KeepSafeOne(c: char)
    ensures KeepSafe([c]) == if SafeChar(c) then [c] else []
  {
    assert [c][1..] == [];
  }

  /** `sanitize_filename`: "unknown" for an empty name, else the kept characters, stripped. */
  function Sanitize(name: string): (r: string)
    ensures name == [] ==> r == "unknown"
    ensures AllSafe(r)
    ensures r == [] || (!IsSpace(r[0]) && !IsSpace(r[|r| - 1]))
  {
    if name == [] then "unknown"
    else
      var kept := KeepSafe(name);
      StripKeepsSafe(kept);
      StripEnds(kept);
      Strip(kept)
  }

  lemma StripKeepsSafe(s: string)
    requires AllSafe(s)
    ensures AllSafe(Strip(s))
  {
    StripPiece(s);
  }

  /** A string already without surrounding whitespace is its own strip. */
  lemma {:induction false} StripTrimmed(s: string)
    requires s == [] || (!IsSpace(s[0]) && !IsSpace(s[|s| - 1]))
    ensures Strip(s) == s
  {
    assert LStrip(s) == s;
  }

  /** Sanitising a non-empty sanitised name leaves it as it is. */
  lemma SanitizeIdempotent(name: string)
    requires Sanitize(name) != []
    ensures Sanitize(Sanitize(name)) == Sanitize(name)
  {
    var r := Sanitize(name);
    assert KeepSafe(r) == r;
    StripTrimmed(r);
  }

  /** What formatting a template comes to: the text, the first placeholder missing from the
      context (a `KeyError`), or a template `str.format` refuses. */
  datatype Formatted = Formatted(text: string) | KeyMissing(key: string) | Malformed(message: string)

  function Prefixed(s: string, r: Formatted): Formatted
  {
    if r.Formatted? then Formatted(s + r.text) else r
  }

  /** A placeholder naming a keyword argument: not all decimal digits (which would be a positional
      index, and the empty name an automatic one), with no conversion, format spec, attribute,
      index or nested brace. A name such as `2nd` that only starts with a digit is a keyword. */
  predicate KeywordField(name: string)
  {
    !AllDigits(name)
    && forall i :: 0 <= i < |name| ==> name[i] !in "{}!:.["
  }

  /** `t.format(**ctx)` read from left to right, as Python renders it: literal text, `{{` and
      `}}` escapes, and `{name}` fields looked up as they are met. */
  function FormatFrom(t: string, ctx: map<string, string>): (r: Formatted)
    decreases |t|
  {
    if t == [] then Formatted("")
    else if t[0] == '{' then
      if |t| >= 2 && t[1] == '{' then Prefixed("{", FormatFrom(t[2..], ctx))
      else
        var e := IndexOf(t[1..], '}') + 1;
        if e == |t| then Malformed("expected '}' before end of string")
        else if !KeywordField(t[1..e]) then Malformed("unsupported field " + t[1..e])
        else if t[1..e] !in ctx then KeyMissing(t[1..e])
        else Prefixed(ctx[t[1..e]], FormatFrom(t[e + 1..], ctx))
    else if t[0] == '}' then
      if |t| >= 2 && t[1] == '}' then Prefixed("}", FormatFrom(t[2..], ctx))
      else Malformed("Single '}' encountered in format string")
    else Prefixed([t[0]], FormatFrom(t[1..], ctx))
  }

  /** The sanitised context `format_string` substitutes. */
  function SafeContext(ctx: map<string, Value>): (safe: map<string, string>)
    ensures safe.Keys == ctx.Keys
    ensures forall k :: k in safe ==> safe[k] == Sanitize(ValueText(ctx[k]))
  {
    map k | k in ctx :: Sanitize(ValueText(ctx[k]))
  }

  /** `format_string`: the template filled with sanitised values; the template itself when it
      names a key the context lacks; the error `str.format` raises otherwise. */
  function FormatString(template: string, ctx: map<string, Value>): (r: Result<string>)
    ensures FormatFrom(template, SafeContext(ctx)).KeyMissing? ==> r == Ok(template)
    ensures r.Err? <==> FormatFrom(template, SafeContext(ctx)).Malformed?
    ensures FormatFrom(template, SafeContext(ctx)).Formatted? ==> r == Ok(FormatFrom(template, SafeContext(ctx)).text)
  {
    match FormatFrom(template, SafeContext(ctx))
    case Formatted(s) => Ok(s)
    case KeyMissing(_) => Ok(template)
    case Malformed(m) => Err(m)
  }

  /** Every character of a formatted text comes from the template or from a context value. */
  lemma {:induction false} FormattedChars(t: string, ctx: map<string, string>)
    requires forall k :: k in ctx ==> AllSafe(ctx[k])
    ensures FormatFrom(t, ctx).Formatted? ==>
      forall i :: 0 <= i < |FormatFrom(t, ctx).text| ==> FormatFrom(t, ctx).text[i] in t || SafeChar(FormatFrom(t, ctx).text[i])
    decreases |t|
  {
    var r := FormatFrom(t, ctx);
    if t == [] || !r.Formatted? {
    } else if t[0] == '{' && |t| >= 2 && t[1] == '{' {
      FormattedChars(t[2..], ctx);
      var rest := FormatFrom(t[2..], ctx).text;
      assert r.text == "{" + rest;
      assert forall i :: 0 <= i < |rest| ==> rest[i] in t[2..] ==> rest[i] in t;
    } else if t[0] == '{' {
      var e := IndexOf(t[1..], '}') + 1;
      FormattedChars(t[e + 1..], ctx);
      var v := ctx[t[1..e]];
      var rest := FormatFrom(t[e + 1..], ctx).text;
      assert r.text == v + rest;
      assert forall i :: 0 <= i < |rest| ==> rest[i] in t[e + 1..] ==> rest[i] in t;
    } else if t[0] == '}' {
      FormattedChars(t[2..], ctx);
      var rest := FormatFrom(t[2..], ctx).text;
      assert r.text == "}" + rest;
      assert forall i :: 0 <= i < |rest| ==> rest[i] in t[2..] ==> rest[i] in t;
    } else {
      FormattedChars(t[1..], ctx);
      var rest := FormatFrom(t[1..], ctx).text;
      assert r.text == [t[0]] + rest;
      assert forall i :: 0 <= i < |rest| ==> rest[i] in t[1..] ==> rest[i] in t;
    }
  }

  /** A template without braces formats to itself. */
  lemma {:induction false} FormatPlain(t: string, ctx: map<string, string>)
    requires '{' !in t && '}' !in t
    ensures FormatFrom(t, ctx) == Formatted(t)
    decreases |t|
  {
    if t != [] {
      FormatPlain(t[1..], ctx);
      assert [t[0]] + t[1..] == t;
    }
  }

  /** A field met in a template: its value goes in front of the rest, or the key is missing. */
  lemma FormatFieldThen(name: string, rest: string, ctx: map<string, string>)
    requires KeywordField(name)
    ensures FormatFrom("{" + name + "}" + rest, ctx)
         == if name in ctx then Prefixed(ctx[name], FormatFrom(rest, ctx)) else KeyMissing(name)
  {
    var t := "{" + name + "}" + rest;
    assert t[1..] == name + "}" + rest;
    assert forall i :: 0 <= i < |name| ==> name[i] != '}';
    IndexOfPast(name, '}', rest);
    assert t[1..|name| + 1] == name;
    assert t[|name| + 2..] == rest;
  }

  /** A character other than a brace is copied. */
  lemma FormatCharThen(c: char, rest: string, ctx: map<string, string>)
    requires c != '{' && c != '}'
    ensures FormatFrom([c] + rest, ctx) == Prefixed([c], FormatFrom(rest, ctx))
  {
    assert ([c] + rest)[1..] == rest;
  }

  /** Literal text without braces is copied in front of what the rest formats to. */
  lemma {:induction false} FormatLiteralThen(lit: string, rest: string, ctx: map<string, string>)
    requires '{' !in lit && '}' !in lit
    ensures FormatFrom(lit + rest, ctx) == Prefixed(lit, FormatFrom(rest, ctx))
    decreases |lit|
  {
    if lit == [] {
      assert lit + rest == rest;
      if FormatFrom(rest, ctx).Formatted? {
        assert lit + FormatFrom(rest, ctx).text == FormatFrom(rest, ctx).text;
      }
    } else {
      assert lit + rest == [lit[0]] + (lit[1..] + rest);
      FormatCharThen(lit[0], lit[1..] + rest, ctx);
      FormatLiteralThen(lit[1..], rest, ctx);
      if FormatFrom(rest, ctx).Formatted? {
        assert [lit[0]] + (lit[1..] + FormatFrom(rest, ctx).text) == lit + FormatFrom(rest, ctx).text;
      }
    }
  }

  /** A lone placeholder formats to the sanitised value, or the template when the key is absent. */
  lemma FormatField(name: string, ctx: map<string, Value>)
    requires KeywordField(name)
    ensures name in ctx ==> FormatString("{" + name + "}", ctx) == Ok(Sanitize(ValueText(ctx[name])))
    ensures name !in ctx ==> FormatString("{" + name + "}", ctx) == Ok("{" + name + "}")
  {
    FormatFieldThen(name, [], SafeContext(ctx));
    assert "{" + name + "}" + [] == "{" + name + "}";
    if name in ctx {
      assert Sanitize(ValueText(ctx[name])) + "" == Sanitize(ValueText(ctx[name]));
    }
  }

  /** The first `c` in `s + [c] + rest` is the one after `s` when `s` has none. */
  lemma IndexOfPast(s: string, c: char, rest: string)
    requires c !in s
    ensures IndexOf(s + [c] + rest, c) == |s|
  {
    var x := s + [c] + rest;
    assert x[..|s|] == s;
    assert forall k :: |s| < k <= |x| ==> x[..k][|s|] == c;
  }

  /** `IndexOf` finds the first occurrence: a `c` at `k` with none before it is the one found. */
  lemma IndexOfFirst(s: string, c: char, k: nat)
    requires k < |s| && s[k] == c && c !in s[..k]
    ensures IndexOf(s, c) == k
  {
    assert forall i :: 0 <= i < k ==> s[..k][i] == s[i];
    var j := IndexOf(s, c);
    assert forall i :: 0 <= i < j ==> s[..j][i] == s[i];
  }

  /** One component appended to `dir`, unless it is empty or `.`. */
  function AppendPart(dir: string, part: string): string
  {
    if part == [] || part == "." then dir else dir + "/" + part
  }

  /** The components of a relative path appended to `dir` one by one, as pathlib keeps them: the
      text is split at each `/`, and empty and `.` components are dropped (so `a//b`, `a/./b`
      and `a/b/` all name `a/b`). */
  function AppendParts(dir: string, name: string): string
    decreases |name|
  {
    if name == [] then dir
    else
      var e := IndexOf(name, '/');
      if e == |name| then AppendPart(dir, name)
      else AppendParts(AppendPart(dir, name[..e]), name[e + 1..])
  }

  /** Appending a path whose first `/` is at `e`: its first component, then the rest. */
  lemma AppendPartsAt(dir: string, name: string, e: nat)
    requires e < |name| && name[e] == '/' && '/' !in name[..e]
    ensures AppendParts(dir, name) == AppendParts(AppendPart(dir, name[..e]), name[e + 1..])
  {
    IndexOfFirst(name, '/', e);
  }

  /** Appending `a/b` is appending `a`, then `b`. */
  lemma {:induction false} AppendPartsConcat(dir: string, a: string, b: string)
    ensures AppendParts(dir, a + "/" + b) == AppendParts(AppendParts(dir, a), b)
    decreases |a|
  {
    var x := a + "/" + b;
    if a == [] {
      assert x[..0] == [] && x[1..] == b;
      AppendPartsAt(dir, x, 0);
    } else {
      var e := IndexOf(a, '/');
      if e == |a| {
        assert x[..|a|] == a && x[|a| + 1..] == b;
        AppendPartsAt(dir, x, |a|);
      } else {
        assert x[..e] == a[..e];
        assert x[e + 1..] == a[e + 1..] + "/" + b;
        AppendPartsAt(dir, x, e);
        AppendPartsConcat(AppendPart(dir, a[..e]), a[e + 1..], b);
      }
    }
  }

  /** A lower-cased suffix of at least two characters without `/` survives appending: it lies
      inside the last component, which is then neither empty nor `.`. */
  lemma {:induction false} AppendPartsSuffix(dir: string, name: string, w: string)
    requires EndsWith(Lower(name), w) && |w| >= 2 && '/' !in w
    ensures EndsWith(Lower(AppendParts(dir, name)), w)
    decreases |name|
  {
    var e := IndexOf(name, '/');
    if e == |name| {
      assert name != [] && name != ".";
      LowerKeepsSuffix(dir + "/", name, w);
      assert dir + "/" + name == (dir + "/") + name;
    } else {
      LowerSuffixAfter(name, e, w);
      AppendPartsSuffix(AppendPart(dir, name[..e]), name[e + 1..], w);
    }
  }

  /** A lower-cased suffix without `/` lies after every `/` of the string. */
  lemma LowerSuffixAfter(name: string, e: nat, w: string)
    requires EndsWith(Lower(name), w) && '/' !in w && e < |name| && name[e] == '/'
    ensures EndsWith(Lower(name[e + 1..]), w)
  {
    var tail := |name| - |w|;
    assert forall i :: tail <= i < |name| ==> Lower(name)[i] == w[i - tail];
    assert Lower(name)[e] == '/';
    var rest := name[e + 1..];
    forall i | 0 <= i < |w|
      ensures Lower(rest)[|rest| - |w| + i] == w[i]
    {
      assert rest[|rest| - |w| + i] == name[tail + i];
      assert Lower(name)[tail + i] == w[i];
    }
    assert Lower(rest)[|rest| - |w|..] == w;
  }

  /** One more component under a path, as pathlib's `/` joins them: an absolute component
      replaces the path, and the component's empty and `.` parts add nothing. The path on the
      left is taken as already normal (the library root is resolved). */
  function Join(dir: string, name: string): (p: string)
    ensures name != [] && name != "." && '/' !in name ==> p == dir + "/" + name
    ensures name == "." ==> p == dir
  {
    if name != [] && name[0] == '/' then
      var abs := AppendParts("", name);
      if abs == [] then "/" else abs
    else AppendParts(dir, name)
  }

  /** Joining `a/b` is joining `a` and then `b` (both relative): a trailing `/` on `a` (`b` empty)
      adds nothing. */
  lemma JoinSplits(dir: string, a: string, b: string)
    requires a != [] && a[0] != '/' && (b == [] || b[0] != '/')
    ensures Join(dir, a + "/" + b) == Join(Join(dir, a), b)
  {
    assert (a + "/" + b)[0] == a[0];
    AppendPartsConcat(dir, a, b);
  }

  /** A file name ending in a suffix of at least two characters without `/` (".epub", up to
      case) keeps that ending once joined under a directory. */
  lemma JoinKeepsSuffix(dir: string, name: string, w: string)
    requires EndsWith(Lower(name), w) && |w| >= 2 && '/' !in w
    ensures EndsWith(Lower(Join(dir, name)), w)
  {
    if name != [] && name[0] == '/' {
      AppendPartsSuffix("", name, w);
    } else {
      AppendPartsSuffix(dir, name, w);
    }
  }

  /** The values `get_story_path` offers its template. */
  function StoryContext(s: Story): map<string, Value>
  {
    map["Title" := Str(s.title), "Author" := Str(s.author), "Id" := Int(s.id)]
  }

  /** The title and id as the story-folder template sees them, sanitised. */
  lemma StoryContextSafe(s: Story)
    ensures var safe := SafeContext(StoryContext(s));
      "Title" in safe && "Id" in safe && safe["Title"] == Sanitize(s.title) && safe["Id"] == Sanitize(NatToString(s.id))
  {
    var ctx := StoryContext(s);
    assert ctx["Title"] == Str(s.title) && ctx["Id"] == Int(s.id);
  }

  /** `get_story_path`: the story folder under the library root. */
  function StoryPath(cfg: Config, root: string, s: Story): (r: Result<string>)
    ensures var f := FormatFrom(Setting(cfg, "story_folder_format", "{Title} ({Id})"), SafeContext(StoryContext(s)));
      && (r.Err? <==> f.Malformed?)
      && (f.KeyMissing? ==> r == Ok(Join(root, Setting(cfg, "story_folder_format", "{Title} ({Id})"))))
      && (f.Formatted? ==> r == Ok(Join(root, f.text)))
  {
    var template := Setting(cfg, "story_folder_format", "{Title} ({Id})");
    var folder := FormatString(template, StoryContext(s));
    if folder.Err? then Err(folder.message) else Ok(Join(root, folder.value))
  }

  /** A template of the default folder's shape, `{a} ({b})` for two keyword fields present in
      the context, fills in both values around the literal " (" and ")". */
  lemma TwoFieldText(n1: string, n2: string, safe: map<string, string>)
    requires KeywordField(n1) && KeywordField(n2) && n1 in safe && n2 in safe
    ensures FormatFrom("{" + n1 + "}" + (" (" + ("{" + n2 + "}" + ")")), safe)
         == Formatted(safe[n1] + " (" + safe[n2] + ")")
  {
    ParenthesisedField(n2, safe);
    FormatFieldThen(n1, " (" + ("{" + n2 + "}" + ")"), safe);
    assert safe[n1] + (" (" + safe[n2] + ")") == safe[n1] + " (" + safe[n2] + ")";
  }

  /** " ({b})" fills in as the value of `b` in parentheses after a space. */
  lemma ParenthesisedField(n2: string, safe: map<string, string>)
    requires KeywordField(n2) && n2 in safe
    ensures FormatFrom(" (" + ("{" + n2 + "}" + ")"), safe) == Formatted(" (" + safe[n2] + ")")
  {
    FormatPlain(")", safe);
    var t2 := "{" + n2 + "}" + ")";
    FormatFieldThen(n2, ")", safe);
    FormatCharThen('(', t2, safe);
    FormatCharThen(' ', ['('] + t2, safe);
    assert " (" + t2 == [' '] + (['('] + t2);
    assert [' '] + (['('] + (safe[n2] + ")")) == " (" + safe[n2] + ")";
  }

  /** The default story-folder template puts the title, a space and the parenthesised id together. */
  lemma DefaultFolderText(safe: map<string, string>)
    requires "Title" in safe && "Id" in safe
    ensures FormatFrom("{Title} ({Id})", safe) == Formatted(safe["Title"] + " (" + safe["Id"] + ")")
  {
    assert "{Title} ({Id})" == "{" + "Title" + "}" + (" (" + ("{" + "Id" + "}" + ")"));
    assert !IsDigit("Title"[0]) && !IsDigit("Id"[0]);
    TwoFieldText("Title", "Id", safe);
  }

  /** A number's decimal text passes the sanitiser untouched. */
  lemma SanitizeDigits(d: string)
    requires d != [] && AllDigits(d)
    ensures Sanitize(d) == d
  {
    assert AllSafe(d);
    StripTrimmed(d);
  }

  /** By default the story folder is "<title> (<id>)", both sanitised. */
  lemma DefaultStoryFolder(cfg: Config, root: string, s: Story)
    requires "story_folder_format" !in cfg
    ensures StoryPath(cfg, root, s) == Ok(root + "/" + (Sanitize(s.title) + " (" + NatToString(s.id) + ")"))
  {
    StoryContextSafe(s);
    SanitizeDigits(NatToString(s.id));
    var safe := SafeContext(StoryContext(s));
    DefaultFolderText(safe);
    var folder := Sanitize(s.title) + " (" + NatToString(s.id) + ")";
    assert StoryPath(cfg, root, s) == Ok(Join(root, folder));
    NoSlashInSafe(Sanitize(s.title));
    NoSlashInSafe(NatToString(s.id));
    ParenthesisedName(Sanitize(s.title), NatToString(s.id));
  }

  /** "<a> (<b>)" is one plain path component when neither part holds a `/`. */
  lemma ParenthesisedName(a: string, b: string)
    requires '/' !in a && '/' !in b
    ensures var n := a + " (" + b + ")"; n != [] && n != "." && '/' !in n
  {
    var n := a + " (" + b + ")";
    assert n[|a|] == ' ';
    assert forall i :: 0 <= i < |n| ==> n[i] in a || n[i] in " ()" || n[i] in b;
  }

  /** Sanitised text and decimal digits never hold a `/`. */
  lemma NoSlashInSafe(s: string)
    requires AllSafe(s) || AllDigits(s)
    ensures '/' !in s
  {
    assert forall i :: 0 <= i < |s| ==> s[i] != '/';
  }

  /** `get_chapter_dir`: `<story>/chapters`, with a volume folder below it when the volume number
      is set. */
  function ChapterDir(cfg: Config, root: string, s: Story, volumeNumber: Option<int>, volumeTitle: Option<string>): (r: Result<string>)
    ensures StoryPath(cfg, root, s).Err? ==> r.Err?
    ensures StoryPath(cfg, root, s).Ok? && volumeNumber.None? ==> r == Ok(Join(StoryPath(cfg, root, s).value, "chapters"))
    ensures StoryPath(cfg, root, s).Ok? && volumeNumber.Some? ==>
      (r.Err? <==> VolumeName(cfg, volumeNumber.value, volumeTitle).Err?)
      && (r.Ok? ==> r.value == Join(Join(StoryPath(cfg, root, s).value, "chapters"), VolumeName(cfg, volumeNumber.value, volumeTitle).value))
  {
    var story := StoryPath(cfg, root, s);
    if story.Err? then story
    else
      var base := Join(story.value, "chapters");
      if volumeNumber.None? then Ok(base)
      else
        var volume := VolumeName(cfg, volumeNumber.value, volumeTitle);
        if volume.Err? then Err(volume.message) else Ok(Join(base, volume.value))
  }

  /** The name of a numbered volume's folder: the volume template filled with the number and title. */
  function VolumeName(cfg: Config, v: int, volumeTitle: Option<string>): (r: Result<string>)
    ensures "volume_folder_format" !in cfg ==> r == Ok("Volume " + IntToString(v))
    ensures var template := Setting(cfg, "volume_folder_format", "Volume {Volume}");
      var f := FormatFrom(template, SafeContext(map["Volume" := Int(v), "Title" := Str(ValueOr(volumeTitle, ""))]));
      (r.Err? <==> f.Malformed?) && (f.Formatted? ==> r == Ok(f.text)) && (f.KeyMissing? ==> r == Ok(template))
  {
    var template := Setting(cfg, "volume_folder_format", "Volume {Volume}");
    DefaultVolumeName(template, v, volumeTitle);
    FormatString(template, map["Volume" := Int(v), "Title" := Str(ValueOr(volumeTitle, ""))])
  }
  /** An integer's decimal text passes the sanitiser untouched. */
  lemma SanitizeInt(i: int)
    ensures Sanitize(IntToString(i)) == IntToString(i)
  {
    var d := IntToString(i);
    var n := NatToString(if i < 0 then -i else i);
    assert forall k :: 0 <= k < |n| ==> SafeChar(n[k]);
    if i < 0 {
      assert forall k :: 1 <= k < |d| ==> d[k] == n[k - 1];
    }
    assert AllSafe(d);
    assert d[|d| - 1] == n[|n| - 1];
    StripTrimmed(d);
  }

  /** "Volume <n>" is one plain path component. */
  lemma VolumeNameComponent(v: int)
    ensures var n := "Volume " + IntToString(v); n != "." && '/' !in n
  {
    var d := IntToString(v);
    var m := NatToString(if v < 0 then -v else v);
    NoSlashInSafe(m);
    if v < 0 {
      assert forall k :: 1 <= k < |d| ==> d[k] == m[k - 1];
    }
    assert '/' !in d;
    var n := "Volume " + d;
    assert forall k :: 7 <= k < |n| ==> n[k] == d[k - 7];
  }

  /** With the default volume template a numbered volume's chapters go to
      "<story>/chapters/Volume <n>", whatever the volume's title. */
  lemma DefaultVolumeFolder(cfg: Config, root: string, s: Story, v: int, volumeTitle: Option<string>)
    requires "volume_folder_format" !in cfg && StoryPath(cfg, root, s).Ok?
    ensures ChapterDir(cfg, root, s, Some(v), volumeTitle)
         == Ok(StoryPath(cfg, root, s).value + "/" + "chapters" + "/" + ("Volume " + IntToString(v)))
  {
    var story := StoryPath(cfg, root, s).value;
    var vol := VolumeName(cfg, v, volumeTitle);
    assert vol == Ok("Volume " + IntToString(v));
    VolumeNameComponent(v);
    JoinChapters(story);
    assert ChapterDir(cfg, root, s, Some(v), volumeTitle) == Ok(Join(Join(story, "chapters"), vol.value));
  }

  /** The chapters folder is "chapters" one level below the story folder. */
  lemma JoinChapters(story: string)
    ensures Join(story, "chapters") == story + "/" + "chapters"
  {
    assert '/' !in "chapters";
  }

  /** The default volume template names a volume "Volume <n>". */
  lemma DefaultVolumeName(template: string, v: int, volumeTitle: Option<string>)
    ensures template == "Volume {Volume}" ==>
      FormatString(template, map["Volume" := Int(v), "Title" := Str(ValueOr(volumeTitle, ""))])
      == Ok("Volume " + IntToString(v))
  {
    var safe := SafeContext(map["Volume" := Int(v), "Title" := Str(ValueOr(volumeTitle, ""))]);
    assert safe["Volume"] == Sanitize(IntToString(v));
    SanitizeInt(v);
    VolumeTemplateText(safe);
  }

  /** The default volume template is "Volume " and the volume value. */
  lemma VolumeTemplateText(safe: map<string, string>)
    requires "Volume" in safe
    ensures FormatFrom("Volume {Volume}", safe) == Formatted("Volume " + safe["Volume"])
  {
    assert "Volume {Volume}" == "Volume " + ("{" + "Volume" + "}" + "");
    assert !IsDigit("Volume"[0]);
    FormatFieldThen("Volume", "", safe);
    FormatLiteralThen("Volume ", "{" + "Volume" + "}" + "", safe);
    assert safe["Volume"] + "" == safe["Volume"];
  }


  /** The `Volume` placeholder of a chapter filename: the volume number, or 1 when it is unset or
      0 (`volume_number or 1`). */
  function VolumeOrOne(n: Option<int>): (v: int)
    ensures n.Some? && n.value != 0 ==> v == n.value
    ensures n.None? || n.value == 0 ==> v == 1
    ensures v != 0
  {
    if n.Some? && n.value != 0 then n.value else 1
  }

  /** An optional integer as a context value. */
  function IntValue(n: Option<int>): Value
  {
    if n.Some? then Int(n.value) else NoneValue
  }

  /** The keyword arguments a chapter filename template may use. */
  function ChapterContext(s: Story, c: Chapter): (ctx: map<string, Value>)
    ensures ctx.Keys == {"Index", "Title", "Volume", "StoryTitle", "Id"}
    ensures ctx["Index"] == IntValue(c.index) && ctx["Title"] == Str(c.title)
    ensures ctx["StoryTitle"] == Str(s.title) && ctx["Id"] == Int(s.id)
    ensures ctx["Volume"] == Int(if c.volumeNumber.Some? && c.volumeNumber.value != 0 then c.volumeNumber.value else 1)
  {
    map["Index" := IntValue(c.index), "Title" := Str(c.title), "Volume" := Int(VolumeOrOne(c.volumeNumber)),
        "StoryTitle" := Str(s.title), "Id" := Int(s.id)]
  }

  /** `get_chapter_filename`: the configured chapter template (by default "{Index} - {Title}")
      filled from the chapter's context, with ".html" appended; a malformed template raises. */
  function ChapterFilename(cfg: Config, s: Story, c: Chapter): (r: Result<string>)
    ensures r.Ok? ==> EndsWith(r.value, ".html")
    ensures var name := FormatString(Setting(cfg, "chapter_file_format", "{Index} - {Title}"), ChapterContext(s, c));
      (r.Err? <==> name.Err?) && (r.Ok? ==> r.value == name.value + ".html")
  {
    var template := Setting(cfg, "chapter_file_format", "{Index} - {Title}");
    var name := FormatString(template, ChapterContext(s, c));
    if name.Err? then Err(name.message)
    else
      assert (name.value + ".html")[|name.value|..] == ".html";
      Ok(name.value + ".html")
  }

  /** `get_chapter_absolute_path`: the chapter file inside its chapter directory. */
  function ChapterAbsolutePath(cfg: Config, root: string, s: Story, c: Chapter): (r: Result<string>)
    ensures r.Ok? ==> ChapterDir(cfg, root, s, c.volumeNumber, c.volumeTitle).Ok? && ChapterFilename(cfg, s, c).Ok?
    ensures r.Ok? ==> r.value == Join(ChapterDir(cfg, root, s, c.volumeNumber, c.volumeTitle).value, ChapterFilename(cfg, s, c).value)
  {
    var dir := ChapterDir(cfg, root, s, c.volumeNumber, c.volumeTitle);
    var name := ChapterFilename(cfg, s, c);
    if dir.Err? then dir
    else if name.Err? then name
    else Ok(Join(dir.value, name.value))
  }

  /** With the default template a chapter file is named "<index> - <title>.html", each part
      sanitised. */
  lemma DefaultChapterFilename(cfg: Config, s: Story, c: Chapter)
    requires "chapter_file_format" !in cfg
    ensures ChapterFilename(cfg, s, c) == Ok(Sanitize(ValueText(IntValue(c.index))) + " - " + Sanitize(c.title) + ".html")
  {
    var ctx := ChapterContext(s, c);
    var safe := SafeContext(ctx);
    assert Setting(cfg, "chapter_file_format", "{Index} - {Title}") == "{Index} - {Title}";
    ChapterTemplateText("{Index} - {Title}", safe);
    assert safe["Index"] == Sanitize(ValueText(IntValue(c.index)));
    assert safe["Title"] == Sanitize(ValueText(Str(c.title))) == Sanitize(c.title);
  }

  /** The default chapter template is the index, " - " and the title. */
  lemma ChapterTemplateText(t: string, safe: map<string, string>)
    requires t == "{Index} - {Title}" && "Index" in safe && "Title" in safe
    ensures FormatFrom(t, safe) == Formatted(safe["Index"] + " - " + safe["Title"])
  {
    ChapterTemplateShape();
    ChapterFields();
    FieldLiteralField("Index", " - ", "Title", safe);
  }

  /** The default chapter template split into its fields and the literal between them. */
  lemma ChapterTemplateShape()
    ensures "{Index} - {Title}" == "{" + "Index" + "}" + (" - " + ("{" + "Title" + "}" + ""))
  {
  }

  /** `Index` and `Title` are keyword fields. */
  lemma ChapterFields()
    ensures KeywordField("Index") && KeywordField("Title")
  {
    assert !IsDigit("Index"[0]) && !IsDigit("Title"[0]);
  }

  /** The kind of compiled file whose name template is used. */
  datatype FileType = Single | Group | Full | Volume | Legacy

  /** The name template selected by the file type: the configured one, or a default that starts
      with the title. */
  function CompiledTemplate(cfg: Config, fileType: FileType): (r: string)
    ensures r in cfg.Values || StartsWith(r, "{Title} - ")
    ensures fileType == Single ==> r == Setting(cfg, "single_chapter_name_format", "{Title} - {Index} - {Chapter}")
    ensures fileType == Group ==> r == Setting(cfg, "chapter_group_name_format", "{Title} - {StartChapter} to {EndChapter}")
    ensures fileType == Full ==> r == Setting(cfg, "full_story_name_format", "{Title} - Full story to {EndChapter}")
    ensures fileType == Volume ==> r == Setting(cfg, "volume_name_format", "{Title} - {Volume} - {VolName}")
    ensures fileType == Legacy ==> r == Setting(cfg, "compiled_filename_pattern", "{Title} - {Volume}")
  {
    match fileType
    case Single =>
      TitleFirst("{Index} - {Chapter}");
      Setting(cfg, "single_chapter_name_format", "{Title} - {Index} - {Chapter}")
    case Group =>
      TitleFirst("{StartChapter} to {EndChapter}");
      Setting(cfg, "chapter_group_name_format", "{Title} - {StartChapter} to {EndChapter}")
    case Full =>
      TitleFirst("Full story to {EndChapter}");
      Setting(cfg, "full_story_name_format", "{Title} - Full story to {EndChapter}")
    case Volume =>
      TitleFirst("{Volume} - {VolName}");
      Setting(cfg, "volume_name_format", "{Title} - {Volume} - {VolName}")
    case Legacy =>
      TitleFirst("{Volume}");
      Setting(cfg, "compiled_filename_pattern", "{Title} - {Volume}")
  }

  /** A default name template is "{Title} - " and the rest. */
  lemma TitleFirst(rest: string)
    ensures StartsWith("{Title} - " + rest, "{Title} - ")
  {
    assert ("{Title} - " + rest)[..10] == "{Title} - ";
  }

  /** The placeholders of a compiled-file name: chapter range, first chapter's number and name,
      volume number and name, each '?' (volume name: empty) without chapters. */
  datatype Placeholders = Placeholders(start: Value, end: Value, chapNum: Value, chapName: Value,
                                       volNum: Value, volName: Value)

  function ChapterPlaceholders(chapters: seq<Chapter>): (p: Placeholders)
    ensures chapters == [] ==> p == Placeholders(Str("?"), Str("?"), Str("?"), Str("?"), Str("?"), Str(""))
    ensures chapters != [] ==> p.start == IntValue(chapters[0].index) && p.end == IntValue(chapters[|chapters| - 1].index)
  {
    if chapters == [] then Placeholders(Str("?"), Str("?"), Str("?"), Str("?"), Str("?"), Str(""))
    else
      var first := chapters[0];
      var last := chapters[|chapters| - 1];
      Placeholders(IntValue(first.index), IntValue(last.index), IntValue(first.index), Str(first.title),
                   if first.volumeNumber.Some? && first.volumeNumber.value != 0 then Int(first.volumeNumber.value) else Str("1"),
                   Str(ValueOr(first.volumeTitle, "")))
  }

  /** `name` with ".<ext>" appended unless it already ends so, ignoring case. */
  function WithExtension(name: string, ext: string): (r: string)
    ensures EndsWith(Lower(name), "." + ext) ==> r == name
    ensures !EndsWith(Lower(name), "." + ext) ==> r == name + "." + ext
  {
    if EndsWith(Lower(name), "." + ext) then name else name + "." + ext
  }

  /** A lower-cased string's suffix is lower-cased. */
  lemma LowerSuffixFixed(s: string, p: string)
    requires EndsWith(Lower(s), p)
    ensures Lower(p) == p
  {
    var l := Lower(s);
    forall i | 0 <= i < |p|
      ensures Lower(p)[i] == p[i]
    {
      assert p[i] == l[|l| - |p| + i] == LowerChar(s[|s| - |p| + i]);
    }
  }

  /** Text put in front of a string keeps the suffixes of its lower-cased form. */
  lemma LowerKeepsSuffix(a: string, b: string, p: string)
    requires EndsWith(Lower(b), p)
    ensures EndsWith(Lower(a + b), p)
  {
    var x := Lower(a + b);
    var lb := Lower(b);
    forall i | 0 <= i < |p|
      ensures x[|x| - |p| + i] == p[i]
    {
      var k := |b| - |p| + i;
      assert x[|a| + k] == LowerChar((a + b)[|a| + k]);
      assert (a + b)[|a| + k] == b[k];
      assert lb[k] == LowerChar(b[k]);
      assert p[i] == lb[|lb| - |p|..][i] == lb[k];
    }
    assert x[|x| - |p|..] == p;
  }

  /** The name always ends with ".<ext>", up to case. */
  lemma WithExtensionEnds(name: string, ext: string)
    ensures EndsWith(Lower(WithExtension(name, ext)), Lower("." + ext))
  {
    var dotExt := "." + ext;
    if EndsWith(Lower(name), dotExt) {
      LowerSuffixFixed(name, dotExt);
    } else {
      assert name + "." + ext == name + dotExt;
      assert Lower(dotExt)[|dotExt| - |Lower(dotExt)|..] == Lower(dotExt);
      LowerKeepsSuffix(name, dotExt, Lower(dotExt));
    }
  }

  /** For a lower-case extension, adding it twice adds it once. */
  lemma WithExtensionIdempotent(name: string, ext: string)
    requires Lower(ext) == ext
    ensures WithExtension(WithExtension(name, ext), ext) == WithExtension(name, ext)
  {
    var dotExt := "." + ext;
    if !EndsWith(Lower(name), dotExt) {
      assert Lower(dotExt) == dotExt by {
        assert forall i :: 1 <= i < |dotExt| ==> dotExt[i] == ext[i - 1];
      }
      assert name + "." + ext == name + dotExt;
      LowerKeepsSuffix(name, dotExt, dotExt);
    }
  }

  /** The keyword arguments a compiled-file name template may use. */
  function CompiledContext(s: Story, suffix: string, chapters: seq<Chapter>): (ctx: map<string, Value>)
    ensures "Title" in ctx && ctx["Title"] == Str(s.title)
    ensures "EndChapter" in ctx && ctx["EndChapter"] == ChapterPlaceholders(chapters).end
  {
    var p := ChapterPlaceholders(chapters);
    map[
      "Title" := Str(s.title), "Author" := Str(s.author), "Volume" := Str(suffix),
      "StoryTitle" := Str(s.title), "Id" := Int(s.id),
      "StartChapter" := p.start, "EndChapter" := p.end,
      "chapNum" := p.chapNum, "chapName" := p.chapName, "startChapNum" := p.start, "endChapNum" := p.end,
      "volNum" := p.volNum, "volName" := p.volName,
      "Index" := p.chapNum, "Chapter" := p.chapName, "VolName" := p.volName, "VolNum" := p.volNum]
  }

  /** `get_compiled_filename`: the template chosen by file type, filled with the story and
      chapter-range placeholders, with the extension ensured. */
  function CompiledFilename(cfg: Config, s: Story, suffix: string, ext: string, chapters: seq<Chapter>, fileType: FileType): (r: Result<string>)
    ensures r.Ok? ==> EndsWith(Lower(r.value), Lower("." + ext))
    ensures var name := FormatString(CompiledTemplate(cfg, fileType), CompiledContext(s, suffix, chapters));
      (r.Err? <==> name.Err?) && (r.Ok? ==> r.value == WithExtension(name.value, ext))
  {
    var name := FormatString(CompiledTemplate(cfg, fileType), CompiledContext(s, suffix, chapters));
    if name.Err? then Err(name.message)
    else
      WithExtensionEnds(name.value, ext);
      Ok(WithExtension(name.value, ext))
  }

  /** With the default full-story template the file is named "<title> - Full story to <last
      chapter index>", sanitised, with the extension ensured. */
  lemma DefaultFullStoryName(cfg: Config, s: Story, suffix: string, ext: string, chapters: seq<Chapter>)
    requires "full_story_name_format" !in cfg
    ensures CompiledFilename(cfg, s, suffix, ext, chapters, Full)
         == Ok(WithExtension(Sanitize(s.title) + " - Full story to "
                             + Sanitize(ValueText(ChapterPlaceholders(chapters).end)), ext))
  {
    var ctx := CompiledContext(s, suffix, chapters);
    assert CompiledTemplate(cfg, Full) == "{Title} - Full story to {EndChapter}";
    FullStoryTemplateText(CompiledTemplate(cfg, Full), SafeContext(ctx));
  }

  /** The default full-story template is the title, " - Full story to " and the last chapter. */
  lemma FullStoryTemplateText(t: string, safe: map<string, string>)
    requires t == "{Title} - Full story to {EndChapter}" && "Title" in safe && "EndChapter" in safe
    ensures FormatFrom(t, safe) == Formatted(safe["Title"] + " - Full story to " + safe["EndChapter"])
  {
    FullStoryTemplateShape();
    FullStoryFields();
    FieldLiteralField("Title", " - Full story to ", "EndChapter", safe);
  }

  /** The default full-story template split into its fields and the literal between them. */
  lemma FullStoryTemplateShape()
    ensures "{Title} - Full story to {EndChapter}"
         == "{" + "Title" + "}" + (" - Full story to " + ("{" + "EndChapter" + "}" + ""))
  {
  }

  /** `Title` and `EndChapter` are keyword fields. */
  lemma FullStoryFields()
    ensures KeywordField("Title") && KeywordField("EndChapter")
  {
    assert !IsDigit("Title"[0]) && !IsDigit("EndChapter"[0]);
  }

  /** A field, a literal and a field fill in as the two values around the literal. */
  lemma FieldLiteralField(n1: string, lit: string, n2: string, safe: map<string, string>)
    requires KeywordField(n1) && KeywordField(n2) && n1 in safe && n2 in safe
    requires '{' !in lit && '}' !in lit
    ensures FormatFrom("{" + n1 + "}" + (lit + ("{" + n2 + "}" + "")), safe)
         == Formatted(safe[n1] + lit + safe[n2])
  {
    var tail := "{" + n2 + "}" + "";
    FormatFieldThen(n2, "", safe);
    assert safe[n2] + "" == safe[n2];
    FormatLiteralThen(lit, tail, safe);
    FormatFieldThen(n1, lit + tail, safe);
    assert safe[n1] + (lit + safe[n2]) == safe[n1] + lit + safe[n2];
  }

  /** A '?' placeholder sanitises to the empty string. */
  lemma QuestionMarkVanishes()
    ensures Sanitize(ValueText(Str("?"))) == ""
  {
    assert !SafeChar('?');
    UnsafeCharVanishes('?');
    assert ValueText(Str("?")) == ['?'];
  }

  /** A single character that is not kept sanitises to the empty string. */
  lemma UnsafeCharVanishes(c: char)
    requires !SafeChar(c)
    ensures Sanitize([c]) == ""
  {
    assert KeepSafe([c]) == KeepSafe([c][1..]) == [];
    assert Strip([]) == [];
  }

  /** ".<ext>" lower-cased holds a `/` only where the extension does. */
  lemma DotExtNoSlash(ext: string)
    requires '/' !in ext
    ensures '/' !in Lower("." + ext)
  {
    var d := "." + ext;
    assert forall i :: 1 <= i < |d| ==> d[i] == ext[i - 1];
  }

  /** `get_compiled_absolute_path`: the compiled file inside `<story>/compiled`. */
  function CompiledAbsolutePath(cfg: Config, root: string, s: Story, suffix: string, ext: string,
                                chapters: seq<Chapter>, fileType: FileType): (r: Result<string>)
    ensures r.Ok? <==> StoryPath(cfg, root, s).Ok? && CompiledFilename(cfg, s, suffix, ext, chapters, fileType).Ok?
    ensures r.Ok? ==> r.value == Join(Join(StoryPath(cfg, root, s).value, "compiled"),
                                      CompiledFilename(cfg, s, suffix, ext, chapters, fileType).value)
    ensures r.Ok? && ext != [] && '/' !in ext ==> EndsWith(Lower(r.value), Lower("." + ext))
  {
    var story := StoryPath(cfg, root, s);
    var name := CompiledFilename(cfg, s, suffix, ext, chapters, fileType);
    if story.Err? then story
    else if name.Err? then name
    else
      var dir := Join(story.value, "compiled");
      if ext != [] && '/' !in ext then
        DotExtNoSlash(ext);
        JoinKeepsSuffix(dir, name.value, Lower("." + ext));
        Ok(Join(dir, name.value))
      else
        Ok(Join(dir, name.value))
  }
}
