/**
 The guided edit of `server.properties`: the keys offered depend on the
 edition, each question defaults to the key's current value, and the
 answers given overwrite exactly their own keys. The properties file is
 read as a map from key to value; comments and layout, which the
 properties library keeps, are not part of the model.
 */
module ServerProperties {
  import opened Optional

  type Properties = map<string, string>

  /** One input question: the key it sets and the text it starts with. */
  datatype Question = Question(key: string, default: string)

  /** How an edit ends: no file, a crash on an unknown edition, nothing answered, or the file rewritten. */
  datatype Outcome = Missing | Crashed | Unchanged | Written(props: Properties)

  /** The keys offered for a Java server. */
  const JavaKeys: seq<string> := [
    "level-name", "difficulty", "gamemode", "max-players", "online-mode",
    "generate-structures", "spawn-protection", "view-distance",
    "simulation-distance", "server-port", "motd"]

  /** The keys offered for a Bedrock server. */
  const BedrockKeys: seq<string> := [
    "level-name", "difficulty", "gamemode", "max-players", "online-mode",
    "allow-cheats", "max-threads", "view-distance",
    "simulation-distance", "server-port", "server-name"]

  /** The keys offered for an edition; any other edition leaves the list unbound. */
  function OfferedKeys(version: string): (r: Option<seq<string>>)
    ensures r.Some? <==> version == "Java" || version == "Bedrock"
  {
    if version == "Java" then Some(JavaKeys)
    else if version == "Bedrock" then Some(BedrockKeys)
    else None
  }

  /** The current value of a key, or the empty text when the file lacks it. */
  function Current(props: Properties, key: string): string
  {
    if key in props then props[key] else ""
  }

  /** One question per offered key, in order. */
  function Questions(keys: seq<string>, props: Properties): (r: seq<Question>)
    ensures |r| == |keys|
    ensures forall i :: 0 <= i < |keys| ==> r[i] == Question(keys[i], Current(props, keys[i]))
  {
    seq(|keys|, i requires 0 <= i < |keys| => Question(keys[i], Current(props, keys[i])))
  }

  /** The answers a prompt returns when every question keeps its default; a later name overrides an earlier one. */
  function Defaults(qs: seq<Question>): Properties
  {
    if |qs| == 0 then map[]
    else Defaults(qs[..|qs| - 1])[qs[|qs| - 1].key := qs[|qs| - 1].default]
  }

  /** Writing the answers back: each answered key takes its answer. */
  function Apply(props: Properties, answers: Properties): Properties
  {
    props + answers
  }

  /** `server_properties` once the file's existence, the edition and the answers are known. */
  function Edit(found: bool, version: string, props: Properties, answers: Properties): Outcome
  {
    if !found then Missing
    else
      match OfferedKeys(version)
      case None => Crashed
      case Some(_) =>
        if |answers| == 0 then Unchanged
        else Written(Apply(props, answers))
  }

  /** An update sets the answered keys, keeps every other key, and adds nothing else. */
  lemma ApplyUpdates(props: Properties, answers: Properties)
    ensures Apply(props, answers).Keys == props.Keys + answers.Keys
    ensures forall k :: k in answers ==> Apply(props, answers)[k] == answers[k]
    ensures forall k :: k in props && k !in answers ==> Apply(props, answers)[k] == props[k]
  {
  }

  /** Giving the same answers twice writes what giving them once does. */
  lemma ApplyIdempotent(props: Properties, answers: Properties)
    ensures Apply(Apply(props, answers), answers) == Apply(props, answers)
  {
  }

  /**
   How an edit ends: a missing file and an unknown edition stop it before
   any question, an empty answer set writes nothing, and otherwise the
   file is rewritten with the answers applied.
   */
  lemma EditOutcome(found: bool, version: string, props: Properties, answers: Properties)
    ensures Edit(found, version, props, answers) == Missing <==> !found
    ensures Edit(found, version, props, answers) == Crashed <==>
      found && version != "Java" && version != "Bedrock"
    ensures Edit(found, version, props, answers) == Unchanged <==>
      found && (version == "Java" || version == "Bedrock") && answers == map[]
    ensures Edit(found, version, props, answers).Written? ==>
      Edit(found, version, props, answers).props == Apply(props, answers)
  {
  }

  /** Answers to the offered questions change only offered keys. */
  lemma EditTouchesOffered(found: bool, version: string, props: Properties, answers: Properties, keys: seq<string>)
    requires OfferedKeys(version) == Some(keys)
    requires forall k :: k in answers ==> k in keys
    ensures Edit(found, version, props, answers).Written? ==>
      forall k :: k in props && k !in keys ==> Edit(found, version, props, answers).props[k] == props[k]
  {
  }

  /** The defaults answer each offered key with its current value, and nothing else. */
  lemma {:induction false} DefaultsCurrent(keys: seq<string>, props: Properties)
    ensures Defaults(Questions(keys, props)).Keys == set k | k in keys
    ensures forall k :: k in Defaults(Questions(keys, props)) ==>
      Defaults(Questions(keys, props))[k] == Current(props, k)
  {
    if |keys| > 0 {
      var qs := Questions(keys, props);
      var init := keys[..|keys| - 1];
      var last := keys[|keys| - 1];
      QuestionsInit(keys, props);
      var d := Defaults(Questions(init, props));
      assert Defaults(qs) == d[last := Current(props, last)];
      DefaultsCurrent(init, props);
      var e := UpdateCurrent(d, props, (set k | k in init), last);
      SnocKeys(keys, init, last);
    }
  }

  /** The questions for all but the last key are the questions but the last. */
  lemma QuestionsInit(keys: seq<string>, props: Properties)
    requires |keys| > 0
    ensures Questions(keys, props)[..|keys| - 1] == Questions(keys[..|keys| - 1], props)
  {
  }

  /** Adding a key with its current value keeps every value current. */
  lemma UpdateCurrent(d: Properties, props: Properties, ks: set<string>, last: string) returns (e: Properties)
    requires d.Keys == ks && forall k :: k in d ==> d[k] == Current(props, k)
    ensures e == d[last := Current(props, last)]
    ensures e.Keys == ks + {last}
    ensures forall k :: k in e ==> e[k] == Current(props, k)
  {
    e := d[last := Current(props, last)];
  }

  /** The keys of a sequence are those of all but its last, and the last. */
  lemma SnocKeys(keys: seq<string>, init: seq<string>, last: string)
    requires |keys| > 0 && init == keys[..|keys| - 1] && last == keys[|keys| - 1]
    ensures (set k | k in keys) == (set k | k in init) + {last}
  {
    assert keys == init + [last];
  }

  /**
   Keeping every default leaves the existing values as they are and adds
   each offered key the file lacked, with an empty value.
   */
  lemma KeepDefaults(keys: seq<string>, props: Properties)
    ensures Apply(props, Defaults(Questions(keys, props))).Keys == props.Keys + set k | k in keys
    ensures forall k :: k in props ==> Apply(props, Defaults(Questions(keys, props)))[k] == props[k]
    ensures forall k :: k in keys && k !in props ==> Apply(props, Defaults(Questions(keys, props)))[k] == ""
  {
    DefaultsCurrent(keys, props);
  }

  /** Each edition offers eleven different keys. */
  lemma ElevenKeys()
    ensures |JavaKeys| == 11 && |BedrockKeys| == 11
    ensures forall i, j :: 0 <= i < j < 11 ==> JavaKeys[i] != JavaKeys[j]
    ensures forall i, j :: 0 <= i < j < 11 ==> BedrockKeys[i] != BedrockKeys[j]
  {
  }

  /**
   Bedrock offers the Java keys without `generate-structures`,
   `spawn-protection` and `motd`, and adds `allow-cheats`, `max-threads`
   and `server-name`.
   */
  lemma EditionKeys()
    ensures (set k | k in BedrockKeys) ==
      (set k | k in JavaKeys) - {"generate-structures", "spawn-protection", "motd"}
        + {"allow-cheats", "max-threads", "server-name"}
  {
  }
}
