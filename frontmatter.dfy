/**
 * Frontmatter extraction (`findMatchingFrontmatterKey`, `getFrontmatterData`
 * in src/block.ts): first truthy candidate key wins, plus per-field defaults.
 */
module FrontmatterExtraction {
  import opened JsBuiltins
  import opened Types

  /** `frontmatter[key]` is truthy: present and not the empty string. */
  predicate Truthy(fm: Frontmatter, key: string) {
    key in fm && fm[key] != ""
  }

  /** Some candidate key has a truthy value. */
  predicate AnyTruthy(fm: Option<Frontmatter>, keys: seq<string>) {
    fm.Some? && exists i :: 0 <= i < |keys| && Truthy(fm.value, keys[i])
  }

  /** `frontmatter?.[key]`: the value if the frontmatter exists and has the key. */
  function Get(fm: Option<Frontmatter>, key: string): Option<string> {
    if fm.Some? && key in fm.value then Some(fm.value[key]) else None
  }

  /**
   * The value of the first key, in list order, whose value is truthy; `None`
   * (`null`) when there is none or when the frontmatter itself is `null`.
   */
  function FindMatchingFrontmatterKey(fm: Option<Frontmatter>, keys: seq<string>): (r: Option<string>)
    ensures r.None? <==> !AnyTruthy(fm, keys)
    ensures r.Some? ==> (
      && fm.Some? && r.value != ""
      && exists i :: 0 <= i < |keys| && Truthy(fm.value, keys[i]) && r.value == fm.value[keys[i]] &&
           forall j :: 0 <= j < i ==> !Truthy(fm.value, keys[j]))
  {
    if keys == [] then None
    else if fm.Some? && Truthy(fm.value, keys[0]) then Some(fm.value[keys[0]])
    else
      var r := FindMatchingFrontmatterKey(fm, keys[1..]);
      assert forall i :: 1 <= i < |keys| ==> keys[i] == keys[1..][i - 1];
      r
  }

  /** Two key lists with the same first truthy key give the same value: only the first match matters. */
  lemma {:induction false} FirstMatchWins(fm: Frontmatter, keys: seq<string>, k: nat)
    requires k < |keys| && Truthy(fm, keys[k])
    requires forall j :: 0 <= j < k ==> !Truthy(fm, keys[j])
    ensures FindMatchingFrontmatterKey(Some(fm), keys) == Some(fm[keys[k]])
  {
    if k > 0 {
      FirstMatchWins(fm, keys[1..], k - 1);
    }
  }

  /** The fields `getFrontmatterData` returns, in its tuple order. */
  datatype FrontmatterData = FrontmatterData(
    startDate: string,
    noteTitle: string,
    description: Option<string>,
    img: Option<string>,
    noteClass: string,
    notePath: string,
    eventType: string,
    endDate: Option<string>)

  /** The result for a note without a start date: eight empty strings. */
  const NoDate := FrontmatterData("", "", Some(""), Some(""), "", "", "", Some(""))

  /**
   * `getFrontmatterData`. Without a start date every field is empty (and the
   * host shows a notice). Otherwise: the title falls back to the file name
   * with its first ".md" removed; the description is read from the misspelt
   * field "desription"; `color` and `type` default to "" and "box" only when
   * absent; the path is the file path behind a "/"; the end date is `null`
   * when no end-date key matches.
   */
  function GetFrontmatterData(fm: Option<Frontmatter>, keys: FrontmatterKeys, file: TFile): (r: FrontmatterData)
    ensures r.startDate == "" <==> !AnyTruthy(fm, keys.startDateKey)
    ensures r.startDate == "" ==> r == NoDate
    ensures r.startDate != "" ==>
      && fm.Some?
      && Some(r.startDate) == FindMatchingFrontmatterKey(fm, keys.startDateKey)
      && (AnyTruthy(fm, keys.titleKey) ==> Some(r.noteTitle) == FindMatchingFrontmatterKey(fm, keys.titleKey))
      && (!AnyTruthy(fm, keys.titleKey) ==> r.noteTitle == RemoveFirst(file.name, ".md"))
      && r.description == Get(fm, "desription")
      && r.img == Get(fm, "image")
      && r.noteClass == (if "color" in fm.value then fm.value["color"] else "")
      && r.eventType == (if "type" in fm.value then fm.value["type"] else "box")
      && r.notePath == "/" + file.path
      && r.endDate == FindMatchingFrontmatterKey(fm, keys.endDateKey)
  {
    match FindMatchingFrontmatterKey(fm, keys.startDateKey)
    case None => NoDate
    case Some(startDate) =>
      var noteTitle := match FindMatchingFrontmatterKey(fm, keys.titleKey)
        case Some(t) => t
        case None => RemoveFirst(file.name, ".md");
      var noteClass := match Get(fm, "color") case Some(c) => c case None => "";
      var eventType := match Get(fm, "type") case Some(t) => t case None => "box";
      FrontmatterData(startDate, noteTitle, Get(fm, "desription"), Get(fm, "image"), noteClass,
                      "/" + file.path, eventType, FindMatchingFrontmatterKey(fm, keys.endDateKey))
  }

  /** A file named `base + ".md"` (with no other ".md" in `base`) and no title key is titled `base`. */
  lemma TitleFromFileName(base: string)
    requires forall i: nat :: !OccursAt(base, ".md", i)
    ensures RemoveFirst(base + ".md", ".md") == base
  {
    var s := base + ".md";
    var n := |base|;
    assert OccursAt(s, ".md", n) by { assert s[n..n + 3] == ".md"; }
    forall i: nat | i < n ensures !OccursAt(s, ".md", i) {
      if i + 3 <= n {
        assert s[i..i + 3] == base[i..i + 3];
        assert !OccursAt(base, ".md", i);
      } else if i == n - 1 {
        assert s[i + 1] == '.' && ".md"[1] == 'm';
        assert s[i..i + 3][1] != ".md"[1];
      } else {
        assert i == n - 2 && s[i + 2] == '.' && ".md"[2] == 'd';
        assert s[i..i + 3][2] != ".md"[2];
      }
    }
    var k := IndexOf(s, ".md");
    assert k == Some(n);
    assert s[..n] == base;
  }
}
