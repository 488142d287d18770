/**
 * `parseArgs` (src/block.ts): the arguments of a timeline code block. A
 * plain block holds the tag list; a vis-timeline block holds `key=value`
 * lines that override a record of defaults.
 */
module TimelineArgs {
  import opened JsBuiltins

  /** An argument value: the defaults include one number, every parsed value is a string. */
  datatype ArgValue = Text(text: string) | Number(number: int)

  type Args = map<string, ArgValue>

  const DefaultArgs: Args := map[
    "tags" := Text(""),
    "divHeight" := Number(400),
    "startDate" := Text("-1000"),
    "endDate" := Text("3000"),
    "minDate" := Text("-3000"),
    "maxDate" := Text("3000")]

  /** `args[key] = value`. */
  datatype Assignment = Assignment(key: string, value: string)

  /**
   * `e` reads `key=value`, followed by nothing or by a further '=': `key` and
   * `value` are its first two '='-separated segments.
   */
  predicate Assigns(e: string, key: string, value: string, rest: string) {
    && e == key + "=" + value + rest
    && '=' !in key && '=' !in value
    && (rest == [] || rest[0] == '=')
  }

  /** `e` reads `key=value...` with a non-empty `value`. */
  ghost predicate ReadsAssignment(e: string) {
    exists key, value, rest :: Assigns(e, key, value, rest) && value != ""
  }

  /** Whenever `e` reads `key=value...` with a non-empty `value`, `r` sets `key` to the trimmed `value`. */
  ghost predicate AssignsLeadingSegments(e: string, r: Option<Assignment>) {
    forall key, value, rest :: Assigns(e, key, value, rest) && value != "" ==> r == Some(Assignment(key, Trim(value)))
  }

  /**
   * What one line of a vis-timeline block sets: the trimmed line is split on
   * '='; when its second segment is non-empty, the first segment (as it is,
   * not trimmed) gets the second one trimmed. Blank lines and lines without a
   * non-empty second segment set nothing.
   */
  function Setting(line: string): (r: Option<Assignment>)
    ensures r.Some? <==> ReadsAssignment(Trim(line))
    ensures AssignsLeadingSegments(Trim(line), r)
  {
    var e := Trim(line);
    LeadingSegmentsExist(e);
    if e == "" then None
    else
      var param := Split(e, '=');
      if |param| >= 2 && param[1] != "" then Some(Assignment(param[0], Trim(param[1]))) else None
  }

  /**
   * The text has at least two '='-separated segments exactly when it reads
   * `key=value...`, and then they are the first two segments.
   */
  lemma LeadingSegmentsExist(e: string)
    ensures |Split(e, '=')| >= 2 <==> exists key, value, rest :: Assigns(e, key, value, rest)
    ensures forall key, value, rest :: Assigns(e, key, value, rest) ==>
      e != "" && |Split(e, '=')| >= 2 && Split(e, '=')[0] == key && Split(e, '=')[1] == value
  {
    forall key, value, rest | Assigns(e, key, value, rest)
      ensures e != "" && |Split(e, '=')| >= 2 && Split(e, '=')[0] == key && Split(e, '=')[1] == value
    {
      FirstTwoSegments(e, key, value, rest);
    }
    var p := Split(e, '=');
    if |p| >= 2 {
      JoinSplit(e, '=');
      var rest := if |p| == 2 then "" else "=" + Join(p[2..], '=');
      assert Join(p[1..], '=') == p[1] + rest by {
        if |p| > 2 {
          assert p[1..][1..] == p[2..];
        }
      }
      assert e == p[0] + "=" + p[1] + rest;
      assert '=' !in p[0] && '=' !in p[1];
      assert Assigns(e, p[0], p[1], rest);
    }
  }

  lemma FirstTwoSegments(e: string, key: string, value: string, rest: string)
    requires Assigns(e, key, value, rest)
    ensures e != "" && |Split(e, '=')| >= 2 && Split(e, '=')[0] == key && Split(e, '=')[1] == value
  {
    assert |e| > |key|;
    assert e == key + ['='] + (value + rest);
    SplitAround(key, value + rest, '=');
    if rest == [] {
      assert value + rest == value;
      SplitNoSeparator(value, '=');
    } else {
      assert value + rest == value + ['='] + rest[1..];
      SplitAround(value, rest[1..], '=');
    }
  }

  /** What each line sets, line by line. */
  function LineAssignments(lines: seq<string>): (r: seq<Option<Assignment>>)
    ensures |r| == |lines| && forall i :: 0 <= i < |lines| ==> r[i] == Setting(lines[i])
  {
    seq(|lines|, i requires 0 <= i < |lines| => Setting(lines[i]))
  }

  /**
   * The key whose assignment on a plain object goes to the inherited
   * `Object.prototype.__proto__` setter, which ignores a string value.
   */
  const ProtoKey := "__proto__"

  /** `args[key] = value` on the object literal: every key becomes an own property except `__proto__`. */
  function SetProperty(args: Args, key: string, value: string): (r: Args)
    ensures key == ProtoKey ==> r == args
    ensures key != ProtoKey ==> r.Keys == args.Keys + {key} && r[key] == Text(value)
    ensures forall k :: k in args && k != key ==> r[k] == args[k]
  {
    if key == ProtoKey then args else args[key := Text(value)]
  }

  /** The record after the given assignments have been made in order. */
  function Applied(settings: seq<Option<Assignment>>): Args {
    if settings == [] then DefaultArgs
    else
      var args := Applied(settings[..|settings| - 1]);
      match settings[|settings| - 1]
      case None => args
      case Some(a) => SetProperty(args, a.key, a.value)
  }

  predicate Sets(s: Option<Assignment>, key: string) {
    s.Some? && s.value.key == key
  }

  /** The value the last assignment to `key` gives it, if there is one. */
  function LastSetting(settings: seq<Option<Assignment>>, key: string): Option<string> {
    if settings == [] then None
    else if Sets(settings[|settings| - 1], key) then Some(settings[|settings| - 1].value.value)
    else LastSetting(settings[..|settings| - 1], key)
  }

  /**
   * `LastSetting` finds a value exactly when some line sets the key, and then
   * it is the value of a line setting the key that no later line overrides.
   */
  lemma {:induction false} LastSettingIsLast(settings: seq<Option<Assignment>>, key: string)
    ensures LastSetting(settings, key).Some? <==> exists i :: 0 <= i < |settings| && Sets(settings[i], key)
    ensures LastSetting(settings, key).Some? ==>
      exists i :: (0 <= i < |settings| && settings[i] == Some(Assignment(key, LastSetting(settings, key).value))
        && forall j :: i < j < |settings| ==> !Sets(settings[j], key))
  {
    if settings != [] {
      var last := |settings| - 1;
      var init := settings[..last];
      LastSettingIsLast(init, key);
      if Sets(settings[last], key) {
        assert settings[last] == Some(Assignment(key, LastSetting(settings, key).value));
      } else {
        assert forall i :: 0 <= i < last ==> settings[i] == init[i];
        if i :| 0 <= i < |settings| && Sets(settings[i], key) {
          assert Sets(init[i], key);
        }
        if LastSetting(init, key).Some? {
          var i :| 0 <= i < |init| && init[i] == Some(Assignment(key, LastSetting(init, key).value))
            && forall j :: i < j < |init| ==> !Sets(init[j], key);
          assert settings[i] == init[i];
        }
      }
    }
  }

  /**
   * Later lines override earlier ones: a key other than `__proto__` is set
   * exactly when it has a default or some line sets it, and its value is the
   * one from the last line setting it, or else its default. `__proto__` is
   * never set.
   */
  lemma {:induction false} AppliedAt(settings: seq<Option<Assignment>>, key: string)
    ensures key in Applied(settings) <==> key != ProtoKey && (key in DefaultArgs || LastSetting(settings, key).Some?)
    ensures key != ProtoKey && LastSetting(settings, key).Some? ==>
      Applied(settings)[key] == Text(LastSetting(settings, key).value)
    ensures LastSetting(settings, key).None? && key in DefaultArgs ==> Applied(settings)[key] == DefaultArgs[key]
  {
    if settings != [] {
      AppliedAt(settings[..|settings| - 1], key);
    }
  }

  /**
   * What a vis-timeline block's lines make of the defaults: a key other than
   * `__proto__` is present exactly when it has a default or some line sets
   * it; its value is the one from the last line setting it, or else its
   * default. `__proto__` is never present.
   */
  ghost predicate OverridesDefaults(args: Args, settings: seq<Option<Assignment>>) {
    forall key ::
      var last := LastSetting(settings, key);
      && (key in args <==> key != ProtoKey && (key in DefaultArgs || last.Some?))
      && (key != ProtoKey && last.Some? ==> args[key] == Text(last.value))
      && (last.None? && key in DefaultArgs ==> args[key] == DefaultArgs[key])
  }

  lemma AppliedOverrides(settings: seq<Option<Assignment>>)
    ensures OverridesDefaults(Applied(settings), settings)
  {
    forall key ensures
      var last := LastSetting(settings, key);
      && (key in Applied(settings) <==> key != ProtoKey && (key in DefaultArgs || last.Some?))
      && (key != ProtoKey && last.Some? ==> Applied(settings)[key] == Text(last.value))
      && (last.None? && key in DefaultArgs ==> Applied(settings)[key] == DefaultArgs[key])
    {
      AppliedAt(settings, key);
    }
  }

  /**
   * `parseArgs(source, visTimeline)`: start from the defaults; for a plain
   * block set `tags` to the trimmed source; for a vis-timeline block apply
   * the lines of the source one after the other.
   */
  method ParseArgs(source: string, visTimeline: bool) returns (args: Args)
    ensures !visTimeline ==> args == DefaultArgs["tags" := Text(Trim(source))]
    ensures visTimeline ==> args == Applied(LineAssignments(Split(source, '\n')))
    ensures visTimeline ==> OverridesDefaults(args, LineAssignments(Split(source, '\n')))
  {
    if visTimeline {
      var lines := Split(source, '\n');
      args := ApplyLines(lines);
      AppliedOverrides(LineAssignments(lines));
    } else {
      args := DefaultArgs;
      args := args["tags" := Text(Trim(source))];
    }
  }

  /** The per-line callback of `parseArgs`, run over the lines in order from the defaults. */
  method ApplyLines(lines: seq<string>) returns (args: Args)
    ensures args == Applied(LineAssignments(lines))
  {
    args := DefaultArgs;
    ghost var settings := LineAssignments(lines);
    for i := 0 to |lines|
      invariant args == Applied(settings[..i])
    {
      assert settings[..i + 1][..i] == settings[..i];
      AppliedLast(settings[..i + 1]);
      var e := Trim(lines[i]);
      if e != "" {
        var param := Split(e, '=');
        if |param| >= 2 && param[1] != "" {
          args := SetProperty(args, param[0], Trim(param[1]));
        }
      }
    }
    assert settings[..|lines|] == settings;
  }

  /** Text after a second '=' is dropped: `key=value=rest` sets `key` to the trimmed `value`. */
  lemma SecondEqualsDropsRest(line: string, key: string, value: string, rest: string)
    requires Trim(line) == key + "=" + value + "=" + rest
    requires '=' !in key && '=' !in value && value != ""
    ensures Setting(line) == Some(Assignment(key, Trim(value)))
  {
    SecondEqualsAssigns(Trim(line), key, value, rest);
    LeadingAssignment(Trim(line), Setting(line), key, value, "=" + rest);
  }

  lemma LeadingAssignment(e: string, r: Option<Assignment>, key: string, value: string, rest: string)
    requires AssignsLeadingSegments(e, r) && Assigns(e, key, value, rest) && value != ""
    ensures r == Some(Assignment(key, Trim(value)))
  {
  }

  lemma SecondEqualsAssigns(e: string, key: string, value: string, rest: string)
    requires e == key + "=" + value + "=" + rest
    requires '=' !in key && '=' !in value
    ensures Assigns(e, key, value, "=" + rest)
  {
    assert key + "=" + value + "=" + rest == key + "=" + value + ("=" + rest);
  }

  /**
   * A `__proto__=value` line changes nothing: its assignment goes to the
   * inherited setter, which ignores a string.
   */
  lemma ProtoLineIgnored(lines: seq<string>, line: string, value: string, rest: string)
    requires Assigns(Trim(line), ProtoKey, value, rest)
    ensures Applied(LineAssignments(lines + [line])) == Applied(LineAssignments(lines))
  {
    var s := LineAssignments(lines + [line]);
    ProtoSetting(line, value, rest);
    assert s[|s| - 1] == Setting(line);
    LastSetsNothing(s);
    assert s[..|s| - 1] == LineAssignments(lines);
  }

  lemma LastSetsNothing(settings: seq<Option<Assignment>>)
    requires settings != []
    requires settings[|settings| - 1].None? || settings[|settings| - 1].value.key == ProtoKey
    ensures Applied(settings) == Applied(settings[..|settings| - 1])
  {
    AppliedLast(settings);
  }

  /** One step of `Applied`: the last assignment, if any, is made on the record the earlier ones built. */
  lemma AppliedLast(settings: seq<Option<Assignment>>)
    requires settings != []
    ensures settings[|settings| - 1].None? ==> Applied(settings) == Applied(settings[..|settings| - 1])
    ensures settings[|settings| - 1].Some? ==>
      var a := settings[|settings| - 1].value;
      Applied(settings) == SetProperty(Applied(settings[..|settings| - 1]), a.key, a.value)
  {
  }

  lemma ProtoSetting(line: string, value: string, rest: string)
    requires Assigns(Trim(line), ProtoKey, value, rest)
    ensures Setting(line).None? || Setting(line).value.key == ProtoKey
  {
    FirstTwoSegments(Trim(line), ProtoKey, value, rest);
  }

  /** A line whose trimmed text has no '=' (a bare word, or a blank line) sets nothing. */
  lemma NoEqualsSetsNothing(line: string)
    requires '=' !in Trim(line)
    ensures Setting(line).None?
  {
    SplitNoSeparator(Trim(line), '=');
  }

  /** `key=` with nothing after the '=' sets nothing: an empty second segment is not truthy. */
  lemma EmptyValueSetsNothing(line: string, key: string, rest: string)
    requires Trim(line) == key + "=" + rest
    requires '=' !in key && (rest == [] || rest[0] == '=')
    ensures Setting(line).None?
  {
    SplitAround(key, rest, '=');
    assert key + "=" + rest == key + ['='] + rest;
    if rest != [] {
      SplitAround([], rest[1..], '=');
      assert [] + ['='] + rest[1..] == rest;
    } else {
      SplitNoSeparator([], '=');
    }
  }
}
