/**
 * `describe`: a description for a path from an ordered table of substrings
 * (the first key found anywhere in the path string wins), falling back on the
 * file suffix (generate_structure.py, lines 19-28 and 46-52).
 */
module Descriptor {
  import opened Wrappers
  import opened Text
  import opened Tree

  const ConfigurationText := "Главный файл конфигурации Home Assistant. Импортирует остальные YAML через !include."
  const CustomizeText := "Кастомизация friendly_name, иконок и атрибутов."
  const ScriptsText := "Определение пользовательских скриптов (service calls, delay, последовательности)."
  const ScenesText := "Сцены (наборы состояний устройств)."
  const EsphomeText := "Конфигурации устройств ESPHome (датчики, реле, контроллеры)."
  const Zigbee2mqttText := "Настройки шлюза Zigbee2MQTT и устройств Zigbee."
  const IncludesText := "Подключаемые YAML-части конфигурации (sensors, switches и т.п.)."
  const BlueprintsText := "Шаблоны автоматизаций Home Assistant."

  /** `DESCR`, in the order it is written: the order decides which key wins. */
  const Descr: seq<(string, string)> := [
    ("configuration.yaml", ConfigurationText),
    ("customize.yaml", CustomizeText),
    ("scripts.yaml", ScriptsText),
    ("scenes.yaml", ScenesText),
    ("esphome", EsphomeText),
    ("zigbee2mqtt", Zigbee2mqttText),
    ("includes", IncludesText),
    ("blueprints", BlueprintsText)
  ]

  const YamlText := "YAML конфигурация."
  const JsonText := "JSON данные."
  const PythonText := "Python-скрипт."

  /** The value of the first key of `table` that occurs in `s`, if any. */
  function FirstMatch(table: seq<(string, string)>, s: string): Option<string>
    decreases |table|
  {
    if table == [] then None
    else if Contains(s, table[0].0) then Some(table[0].1)
    else FirstMatch(table[1..], s)
  }

  /**
   * `FirstMatch` finds nothing exactly when no key occurs; otherwise it
   * returns the value of a key that occurs, and no earlier key occurs.
   */
  lemma {:induction false} FirstMatchMeaning(table: seq<(string, string)>, s: string)
    ensures FirstMatch(table, s).None? <==> forall i :: 0 <= i < |table| ==> !Contains(s, table[i].0)
    ensures FirstMatch(table, s).Some? ==>
      exists i :: 0 <= i < |table| && Contains(s, table[i].0) && FirstMatch(table, s).value == table[i].1 &&
        forall j :: 0 <= j < i ==> !Contains(s, table[j].0)
    decreases |table|
  {
    if table != [] && !Contains(s, table[0].0) {
      var rest := table[1..];
      FirstMatchMeaning(rest, s);
      assert forall i :: 0 < i < |table| ==> rest[i - 1] == table[i];
      var r := FirstMatch(rest, s);
      if r.Some? {
        var i :| 0 <= i < |rest| && Contains(s, rest[i].0) && r.value == rest[i].1 &&
          forall j :: 0 <= j < i ==> !Contains(s, rest[j].0);
        assert forall j :: 0 <= j < i + 1 ==> !Contains(s, table[j].0) by {
          forall j | 0 <= j < i + 1 ensures !Contains(s, table[j].0) {
            if j > 0 { assert table[j] == rest[j - 1]; }
          }
        }
        assert table[i + 1] == rest[i];
      }
    }
  }

  /** The description chosen by the file suffix alone, `''` for an unknown one. */
  function SuffixDescription(suffix: string): (r: string)
    ensures r == YamlText <==> suffix == ".yaml" || suffix == ".yml"
    ensures r == JsonText <==> suffix == ".json"
    ensures r == PythonText <==> suffix == ".py"
    ensures r == "" <==> suffix !in {".yaml", ".yml", ".json", ".py"}
  {
    if suffix == ".yaml" || suffix == ".yml" then YamlText
    else if suffix == ".json" then JsonText
    else if suffix == ".py" then PythonText
    else ""
  }

  /** `describe(p)` */
  function Describe(p: Path): string
  {
    match FirstMatch(Descr, Str(p))
    case Some(v) => v
    case None => SuffixDescription(Suffix(Name(p)))
  }

  /** A path gets no description exactly when no key occurs in it and its suffix is none of the four known ones. */
  lemma DescribeEmpty(p: Path)
    ensures Describe(p) == "" <==>
      (forall i :: 0 <= i < |Descr| ==> !Contains(Str(p), Descr[i].0)) &&
      Suffix(Name(p)) !in {".yaml", ".yml", ".json", ".py"}
  {
    FirstMatchMeaning(Descr, Str(p));
    var r := FirstMatch(Descr, Str(p));
    if r.Some? {
      var i :| 0 <= i < |Descr| && Contains(Str(p), Descr[i].0) && r.value == Descr[i].1 &&
        forall j :: 0 <= j < i ==> !Contains(Str(p), Descr[j].0);
      assert Descr[i].1 != "";
    }
  }

  /** The key that occurs first in table order decides the description, whatever later keys also occur. */
  lemma DescribeFirstKeyWins(p: Path, i: nat)
    requires i < |Descr| && Contains(Str(p), Descr[i].0)
    requires forall j :: 0 <= j < i ==> !Contains(Str(p), Descr[j].0)
    ensures Describe(p) == Descr[i].1
  {
    FirstMatchMeaning(Descr, Str(p));
    var r := FirstMatch(Descr, Str(p));
    var k :| 0 <= k < |Descr| && Contains(Str(p), Descr[k].0) && r.value == Descr[k].1 &&
      forall j :: 0 <= j < k ==> !Contains(Str(p), Descr[j].0);
    assert k == i;
  }

  /** With no key in the path, the suffix alone decides, compared case-sensitively. */
  lemma DescribeBySuffix(p: Path)
    requires forall i :: 0 <= i < |Descr| ==> !Contains(Str(p), Descr[i].0)
    ensures Describe(p) == SuffixDescription(Suffix(Name(p)))
  {
    FirstMatchMeaning(Descr, Str(p));
  }

  /** A one-segment path shorter than every key is described by its suffix alone. */
  lemma DescribeShortName(n: string)
    requires '/' !in n && |n| < 7
    ensures Describe([n]) == SuffixDescription(Suffix(n))
  {
    forall j | 0 <= j < |Descr| ensures !Contains(Str([n]), Descr[j].0) {
      LongKeyNotInStr([n], Descr[j].0);
    }
    DescribeBySuffix([n]);
  }

  lemma DescribeMainConfiguration()
    ensures Describe(["configuration.yaml"]) == ConfigurationText
  {
    assert OccursAt("configuration.yaml", "configuration.yaml", 0);
    DescribeFirstKeyWins(["configuration.yaml"], 0);
  }

  // Examples on fixed strings. A lemma that takes its strings as parameters
  // pinned by `requires` lets the solver reason about the parts of a string
  // rather than about each character of one long literal, which keeps these
  // proofs small.

  /** None of the four keys before `esphome` occurs in `esphome/includes/a.yaml`, each being longer than every segment; `esphome` does. */
  lemma EsphomePathKeys(p: Path)
    requires p == ["esphome", "includes", "a.yaml"]
    ensures forall j :: 0 <= j < 4 ==> !Contains(Str(p), Descr[j].0)
    ensures Contains(Str(p), Descr[4].0)
  {
    forall j | 0 <= j < 4 ensures !Contains(Str(p), Descr[j].0) {
      LongKeyNotInStr(p, Descr[j].0);
    }
    assert Str(p) == p[0] + "/" + Str(p[1..]);
    assert OccursAt(Str(p), "esphome", 0);
  }

  /** A path below `esphome/includes/` gets the ESPHome text: `esphome` comes before `includes` in the table. */
  lemma DescribeEsphomeBeforeIncludes()
    ensures Describe(["esphome", "includes", "a.yaml"]) == EsphomeText
  {
    EsphomePathKeys(["esphome", "includes", "a.yaml"]);
    DescribeFirstKeyWins(["esphome", "includes", "a.yaml"], 4);
  }

  /** Neither key before `scripts.yaml` occurs in `includes/scripts.yaml`; `scripts.yaml` does. */
  lemma ScriptsPathKeys(p: Path)
    requires p == ["includes", "scripts.yaml"]
    ensures forall j :: 0 <= j < 2 ==> !Contains(Str(p), Descr[j].0)
    ensures Contains(Str(p), Descr[2].0)
  {
    assert Str(p) == p[0] + "/" + p[1];
    LongKeyNotInStr(p, Descr[0].0);
    LongKeyNotInStr(p, Descr[1].0);
    OccursAfter(p[0] + "/", p[1]);
  }

  /** `includes/scripts.yaml` gets the scripts text: `scripts.yaml` comes before `includes` in the table. */
  lemma DescribeScriptsBeforeIncludes()
    ensures Describe(["includes", "scripts.yaml"]) == ScriptsText
  {
    ScriptsPathKeys(["includes", "scripts.yaml"]);
    DescribeFirstKeyWins(["includes", "scripts.yaml"], 2);
  }

  lemma NotesPathKeys(s: string)
    requires s == "notes.txt"
    ensures forall j :: 0 <= j < |Descr| ==> !Contains(s, Descr[j].0)
  {
    assert !Contains(s, "esphome") by { NotContainsByChar(s, "esphome", 'p'); }
    assert !Contains(s, "includes") by { NotContainsByChar(s, "includes", 'i'); }
  }

  /** Neither a key nor a known suffix: no description. */
  lemma DescribeUnknownFile()
    ensures Describe(["notes.txt"]) == ""
  {
    NotesPathKeys(Str(["notes.txt"]));
    DescribeBySuffix(["notes.txt"]);
    SuffixOfDotted("notes", "txt");
    assert "notes" + "." + "txt" == "notes.txt";
  }

  /** A path whose suffix is `.yml` and in which no key occurs is described as YAML. */
  lemma DescribeYml(p: Path)
    requires Suffix(Name(p)) == ".yml"
    requires forall j :: 0 <= j < |Descr| ==> !Contains(Str(p), Descr[j].0)
    ensures Describe(p) == YamlText
  {
    DescribeBySuffix(p);
  }

}
