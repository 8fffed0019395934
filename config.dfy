/**
 * The two pure helpers of pybd/processor.py's configuration side: `d_dict`, a dict whose
 * lookups give `None` instead of raising, and `ConfigReader.split_header`, which splits a
 * handler header such as `"shell user=iljich"` into the handler name and its arguments.
 */
module Config {

  /** A value of the JSON configuration. `lenient` marks a `d_dict`, whose missing keys
      read as `None`; a plain `dict` from the JSON decoder has it false. */
  datatype Value =
    | Null
    | Bool(b: bool)
    | Num(n: int)
    | Str(s: string)
    | List(items: seq<Value>)
    | Dict(entries: map<string, Value>, lenient: bool)

  /** `d_dict.__getitem__`: a missing key reads as `None`, a dict comes back as a
      `d_dict` over the same entries, and anything else comes back as stored. */
  function Get(entries: map<string, Value>, key: string): (r: Value)
    ensures key !in entries ==> r == Null
    ensures key in entries && entries[key].Dict? ==> r == Dict(entries[key].entries, true)
    ensures key in entries && !entries[key].Dict? ==> r == entries[key]
  {
    if key !in entries then Null
    else match entries[key]
      case Dict(inner, _) => Dict(inner, true)
      case other => other
  }

  /** A dict value comes back as a `d_dict` over the same entries, so a second lookup
      through it is a lookup in the stored dict. */
  lemma GetThroughWrapped(entries: map<string, Value>, outer: string, inner: string)
    requires outer in entries && entries[outer].Dict?
    ensures Get(entries, outer).lenient
    ensures Get(Get(entries, outer).entries, inner) == Get(entries[outer].entries, inner)
  {
  }

  // ---------------------------------------------------------------- str.split

  /** `"".join` with a one-character separator: the inverse of `Split`. */
  function Join(parts: seq<string>, sep: char): string
    requires parts != []
  {
    if |parts| == 1 then parts[0] else parts[0] + [sep] + Join(parts[1..], sep)
  }

  /** `s.split(sep)` for an explicit one-character separator: the text between separators,
      including the empty pieces around adjacent or outer separators; never an empty list. */
  function Split(s: string, sep: char): (parts: seq<string>)
    ensures |parts| >= 1
    ensures Join(parts, sep) == s
    ensures forall i :: 0 <= i < |parts| ==> sep !in parts[i]
    decreases |s|
  {
    if s == [] then [""]
    else
      var later := Split(s[1..], sep);
      if s[0] == sep then
        [""] + later
      else
        assert ([s[0]] + later[0] + [sep]) == [s[0]] + (later[0] + [sep]);
        [[s[0]] + later[0]] + later[1..]
  }

  /** `Split` is the only way to cut `s` into separator-free pieces that `Join` puts back together. */
  lemma {:induction false} SplitUnique(parts: seq<string>, sep: char)
    requires parts != []
    requires forall i :: 0 <= i < |parts| ==> sep !in parts[i]
    ensures Split(Join(parts, sep), sep) == parts
    decreases |Join(parts, sep)|
  {
    var s := Join(parts, sep);
    if parts[0] == [] {
      if |parts| > 1 {
        assert s == [sep] + Join(parts[1..], sep);
        assert s[1..] == Join(parts[1..], sep);
        SplitUnique(parts[1..], sep);
        assert [""] + parts[1..] == parts;
      }
    } else {
      var tail := [parts[0][1..]] + parts[1..];
      assert tail[1..] == parts[1..];
      assert sep !in tail[0] by { assert forall c :: c in parts[0][1..] ==> c in parts[0]; }
      if |parts| == 1 {
        assert s[1..] == Join(tail, sep);
      } else {
        assert s[1..] == Join(tail, sep) by {
          assert s == parts[0] + [sep] + Join(parts[1..], sep);
          assert parts[0] == [parts[0][0]] + parts[0][1..];
        }
      }
      SplitUnique(tail, sep);
      assert s[0] == parts[0][0] && s[0] != sep;
      assert [s[0]] + tail[0] == parts[0];
      assert Split(s, sep) == [[s[0]] + tail[0]] + tail[1..];
      assert [parts[0]] + parts[1..] == parts;
    }
  }

  // ---------------------------------------------------------------- split_header

  /** `kw = arg.split("=")` then `(kw[0], "=".join(kw[1:]))`. */
  function KeyValue(arg: string): (string, string) {
    var kw := Split(arg, '=');
    (kw[0], if |kw| == 1 then "" else Join(kw[1..], '='))
  }

  /** A `key=value` argument is cut at its first `=`, so the value keeps any later `=`;
      an argument without `=` is all key, with the empty value. */
  lemma KeyValueCutsAtFirstEquals(arg: string)
    ensures var (k, v) := KeyValue(arg);
      && '=' !in k
      && ('=' in arg ==> arg == k + "=" + v)
      && ('=' !in arg ==> k == arg && v == "")
  {
    var kw := Split(arg, '=');
    if |kw| == 1 {
      assert arg == kw[0];
    } else {
      assert Join(kw, '=') == kw[0] + ['='] + Join(kw[1..], '=');
    }
  }

  /** `dict(pairs)`: the pairs in order, a later pair overwriting an earlier one with the same key. */
  function ToDict(pairs: seq<(string, string)>): (m: map<string, Value>)
    ensures forall k :: k in m <==> exists i :: 0 <= i < |pairs| && pairs[i].0 == k
  {
    if pairs == [] then map[]
    else
      var last := pairs[|pairs| - 1];
      var m := ToDict(pairs[..|pairs| - 1]);
      assert forall i :: 0 <= i < |pairs| - 1 ==> pairs[..|pairs| - 1][i] == pairs[i];
      m[last.0 := Str(last.1)]
  }

  /** The value a key gets is the one of the last pair that carries it. */
  lemma {:induction false} ToDictLastWins(pairs: seq<(string, string)>, i: nat)
    requires i < |pairs|
    requires forall j :: i < j < |pairs| ==> pairs[j].0 != pairs[i].0
    ensures pairs[i].0 in ToDict(pairs) && ToDict(pairs)[pairs[i].0] == Str(pairs[i].1)
    decreases |pairs|
  {
    if i < |pairs| - 1 {
      var init := pairs[..|pairs| - 1];
      assert init[i] == pairs[i];
      ToDictLastWins(init, i);
    }
  }

  function KeyValues(args: seq<string>): (pairs: seq<(string, string)>)
    ensures |pairs| == |args|
    ensures forall i :: 0 <= i < |args| ==> pairs[i] == KeyValue(args[i])
  {
    seq(|args|, i requires 0 <= i < |args| => KeyValue(args[i]))
  }

  /** `split_header(header)`: the first space-separated word names the handler; every other
      word `k=v` becomes the argument `k` of a `d_dict`. */
  function SplitHeader(header: string): (string, Value) {
    var args := Split(header, ' ');
    (args[0], Dict(ToDict(KeyValues(args[1..])), true))
  }

  /** The head is the header up to its first space, and the arguments a `d_dict`. */
  lemma SplitHeaderHead(header: string)
    ensures var (head, params) := SplitHeader(header);
      && ' ' !in head
      && (' ' !in header ==> head == header)
      && (' ' in header ==> header[..|head| + 1] == head + " ")
      && params.Dict? && params.lenient
  {
    var args := Split(header, ' ');
    if |args| == 1 {
      assert header == args[0];
    } else {
      assert header == args[0] + [' '] + Join(args[1..], ' ');
      assert ' ' in header by { assert header[|args[0]|] == ' '; }
    }
  }

  /** The arguments built from the words after the head: the keys are exactly the words'
      keys, each bound to the text after the first `=` of the last word with that key (the
      empty string when that word has no `=`); an absent argument reads as `None`. */
  lemma {:induction false} ArgumentsOfWords(words: seq<string>, key: string)
    ensures var entries := ToDict(KeyValues(words));
      && (key in entries <==> exists i :: 0 <= i < |words| && KeyValue(words[i]).0 == key)
      && (key !in entries ==> Get(entries, key) == Null)
      && (forall i :: 0 <= i < |words| && KeyValue(words[i]).0 == key
            && (forall j :: i < j < |words| ==> KeyValue(words[j]).0 != key)
            ==> Get(entries, key) == Str(KeyValue(words[i]).1))
  {
    var pairs := KeyValues(words);
    forall i | 0 <= i < |words| && KeyValue(words[i]).0 == key
        && (forall j :: i < j < |words| ==> KeyValue(words[j]).0 != key)
      ensures Get(ToDict(pairs), key) == Str(KeyValue(words[i]).1)
    {
      ToDictLastWins(pairs, i);
    }
    if key in ToDict(pairs) {
      var i :| 0 <= i < |pairs| && pairs[i].0 == key;
      assert KeyValue(words[i]).0 == key;
    }
  }
}
