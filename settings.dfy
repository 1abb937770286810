/**
 * The advanced settings screen: the summary line of the auto-download preference and
 * what changing the download-path preference does.
 */
module Settings {
  import opened JavaLang

  /** The localised texts the auto-download summary is built from. */
  datatype SummaryLabels = SummaryLabels(
    use: string, never: string, network: string,
    cellular: string, wifi: string, bluetooth: string, ethernet: string,
    vpn: string, wifiAware: string, lowpan: string)

  /** The network options of the multi-select preference, with their labels, in the order the summary lists them. */
  function Options(labels: SummaryLabels): seq<(string, string)> {
    [("cellular", labels.cellular), ("wifi", labels.wifi), ("bluetooth", labels.bluetooth),
     ("ethernet", labels.ethernet), ("vpn", labels.vpn), ("wifi_aware", labels.wifiAware),
     ("6lowpan", labels.lowpan)]
  }

  /** The labels of the options in `chosen`, in option order. */
  function ChosenLabels(options: seq<(string, string)>, chosen: set<string>): (r: seq<string>)
    ensures |r| <= |options|
    ensures forall l :: l in r ==> exists i :: 0 <= i < |options| && options[i].0 in chosen && options[i].1 == l
  {
    if options == [] then []
    else
      var rest := ChosenLabels(options[..|options| - 1], chosen);
      var last := options[|options| - 1];
      if last.0 in chosen then rest + [last.1] else rest
  }

  /** Labels joined by " & ". */
  function Join(labels: seq<string>): string {
    if |labels| == 0 then ""
    else if |labels| == 1 then labels[0]
    else Join(labels[..|labels| - 1]) + " & " + labels[|labels| - 1]
  }

  /** The summary string while it is being built: the "use" text, then a space and the labels so far. */
  function Partial(use: string, labels: seq<string>): (r: string)
    ensures labels != [] ==> |r| > |use|
  {
    if labels == [] then use else use + " " + Join(labels)
  }

  /** One `if (prefsValue.contains(..))` step of the summary: a space after the "use" text, " & " after a label. */
  function AddLabel(summary: string, use: string, name: string): string {
    summary + (if summary == use then " " else " & ") + name
  }

  /** Appending a label to the partial summary appends it to the joined labels. */
  lemma AddLabelExtends(use: string, labels: seq<string>, name: string)
    ensures AddLabel(Partial(use, labels), use, name) == Partial(use, labels + [name])
  {
    var extended := labels + [name];
    assert extended[..|extended| - 1] == labels;
    if labels == [] {
      assert Join(extended) == name;
    }
  }

  /** One `if (prefsValue.contains(key))` of the source: the label is appended only for a chosen key. */
  function AddIfChosen(summary: string, use: string, chosen: set<string>, key: string, name: string): string {
    if key in chosen then AddLabel(summary, use, name) else summary
  }

  /** Each step turns the partial summary of the first `k` options into that of the first `k + 1`. */
  lemma AddIfChosenExtends(use: string, options: seq<(string, string)>, k: int, chosen: set<string>)
    requires 0 <= k < |options|
    ensures AddIfChosen(Partial(use, ChosenLabels(options[..k], chosen)), use, chosen, options[k].0, options[k].1)
      == Partial(use, ChosenLabels(options[..k + 1], chosen))
  {
    assert options[..k + 1][..k] == options[..k];
    if options[k].0 in chosen {
      AddLabelExtends(use, ChosenLabels(options[..k], chosen), options[k].1);
    }
  }

  /**
   * The summary the preference ends with: the "never" text when no listed option is
   * chosen, otherwise "use", the chosen labels joined by " & ", and "network".
   */
  function SummaryFor(labels: SummaryLabels, chosen: set<string>): (r: string)
    ensures ChosenLabels(Options(labels), chosen) == [] ==> r == labels.never
  {
    var chosenLabels := ChosenLabels(Options(labels), chosen);
    if chosenLabels == [] then labels.never
    else labels.use + " " + Join(chosenLabels) + " " + labels.network
  }

  /** Options outside the listed seven never show in the summary. */
  lemma SummaryIgnoresUnknownOptions(labels: SummaryLabels, chosen: set<string>, extra: string)
    requires forall i :: 0 <= i < |Options(labels)| ==> Options(labels)[i].0 != extra
    ensures SummaryFor(labels, chosen + {extra}) == SummaryFor(labels, chosen - {extra})
  {
    ChosenLabelsIgnores(Options(labels), chosen, extra);
  }

  lemma {:induction false} ChosenLabelsIgnores(options: seq<(string, string)>, chosen: set<string>, extra: string)
    requires forall i :: 0 <= i < |options| ==> options[i].0 != extra
    ensures ChosenLabels(options, chosen + {extra}) == ChosenLabels(options, chosen - {extra})
  {
    if options != [] {
      ChosenLabelsIgnores(options[..|options| - 1], chosen, extra);
    }
  }

  /** A summary with a chosen option starts with the "use" text and ends with the "network" text. */
  lemma SummaryShape(labels: SummaryLabels, chosen: set<string>)
    requires ChosenLabels(Options(labels), chosen) != []
    ensures var s := SummaryFor(labels, chosen);
      |s| > |labels.use| + |labels.network| && s[..|labels.use|] == labels.use
      && s[|s| - |labels.network|..] == labels.network
  {
  }

  /**
   * The auto-download branch of `OnPreferenceChange`. A null new value falls back to the
   * stored set, and with neither the change is accepted without touching the summary.
   * Without an attached activity the `NullPointerException` is swallowed and the change
   * accepted as well. The change is always accepted.
   */
  method AutoDownloadSummary(newValue: Option<set<string>>, stored: Option<set<string>>,
                             activityAttached: bool, labels: SummaryLabels)
    returns (accepted: bool, summary: Option<string>)
    ensures accepted
    ensures !activityAttached || (newValue.None? && stored.None?) ==> summary.None?
    ensures activityAttached && newValue.Some? ==> summary == Some(SummaryFor(labels, newValue.value))
    ensures activityAttached && newValue.None? && stored.Some? ==> summary == Some(SummaryFor(labels, stored.value))
  {
    if !activityAttached {
      return true, None;
    }
    var prefsValue: set<string>;
    if newValue.None? {
      if stored.None? {
        return true, None;
      }
      prefsValue := stored.value;
    } else {
      prefsValue := newValue.value;
    }
    ghost var options := Options(labels);
    // after each step `text` is the partial summary of the options looked at so far
    var text := labels.use;
    assert options[..0] == [];
    AddIfChosenExtends(labels.use, options, 0, prefsValue);
    text := AddIfChosen(text, labels.use, prefsValue, "cellular", labels.cellular);
    AddIfChosenExtends(labels.use, options, 1, prefsValue);
    text := AddIfChosen(text, labels.use, prefsValue, "wifi", labels.wifi);
    AddIfChosenExtends(labels.use, options, 2, prefsValue);
    text := AddIfChosen(text, labels.use, prefsValue, "bluetooth", labels.bluetooth);
    AddIfChosenExtends(labels.use, options, 3, prefsValue);
    text := AddIfChosen(text, labels.use, prefsValue, "ethernet", labels.ethernet);
    AddIfChosenExtends(labels.use, options, 4, prefsValue);
    text := AddIfChosen(text, labels.use, prefsValue, "vpn", labels.vpn);
    AddIfChosenExtends(labels.use, options, 5, prefsValue);
    text := AddIfChosen(text, labels.use, prefsValue, "wifi_aware", labels.wifiAware);
    AddIfChosenExtends(labels.use, options, 6, prefsValue);
    text := AddIfChosen(text, labels.use, prefsValue, "6lowpan", labels.lowpan);
    assert options[..7] == options;
    ghost var chosen := ChosenLabels(options, prefsValue);
    assert text == Partial(labels.use, chosen);
    if text == labels.use {
      text := labels.never;
    } else {
      text := text + " " + labels.network;
    }
    return true, Some(text);
  }

  // ---------------------------------------------------------------------------
  // The download path preference

  /**
   * The new value of the text preference. `==` on strings compares references, so an
   * entered empty text is distinguished from the interned empty literal.
   */
  datatype PathValue =
    | NullValue
    | Entered(text: string, isEmptyLiteral: bool)

  /** A string object is the empty literal only when it is empty. */
  predicate WellFormed(v: PathValue) {
    v.Entered? && v.isEmptyLiteral ==> v.text == ""
  }

  /** What the change does: whether it is accepted, and the summary or text it sets (if any). */
  datatype PathChange = PathChange(accepted: bool, summary: Option<string>, text: Option<string>)

  /**
   * The download-path branch as written: a null value only refreshes the summary from the
   * stored path (or the default) and rejects the change; a value that IS the empty
   * literal resets the text to the default and rejects; anything else becomes the summary
   * and is accepted, even an empty text typed by the user.
   */
  function DownloadPathChangeAsWritten(newValue: PathValue, stored: Option<string>, defaultPath: string): (r: PathChange)
    requires WellFormed(newValue)
    ensures r.accepted <==> newValue.Entered? && !newValue.isEmptyLiteral
    ensures r.accepted ==> r == PathChange(true, Some(newValue.text), None)
    ensures newValue.NullValue? ==> r == PathChange(false, Some(stored.GetOr(defaultPath)), None)
  {
    match newValue
    case NullValue => PathChange(false, Some(stored.GetOr(defaultPath)), None)
    case Entered(text, isEmptyLiteral) =>
      if isEmptyLiteral then PathChange(false, None, Some(defaultPath))
      else PathChange(true, Some(text), None)
  }

  /** As written, clearing the path in the text box stores an empty download path. */
  lemma EmptyPathAccepted(defaultPath: string, stored: Option<string>)
    ensures DownloadPathChangeAsWritten(Entered("", false), stored, defaultPath).accepted
    ensures DownloadPathChangeAsWritten(Entered("", false), stored, defaultPath).summary == Some("")
  {
  }

  /** The intended branch, comparing contents: any empty value resets the text to the default. */
  function DownloadPathChange(newValue: PathValue, stored: Option<string>, defaultPath: string): (r: PathChange)
    ensures r.accepted <==> newValue.Entered? && newValue.text != ""
    ensures r.accepted ==> r.summary == Some(newValue.text) && newValue.text != ""
    ensures newValue.Entered? && newValue.text == "" ==> r == PathChange(false, None, Some(defaultPath))
    ensures newValue.NullValue? ==> r == PathChange(false, Some(stored.GetOr(defaultPath)), None)
  {
    match newValue
    case NullValue => PathChange(false, Some(stored.GetOr(defaultPath)), None)
    case Entered(text, _) =>
      if text == "" then PathChange(false, None, Some(defaultPath))
      else PathChange(true, Some(text), None)
  }

  /** The two agree except on an empty text that is not the literal itself. */
  lemma DownloadPathChangeAgrees(newValue: PathValue, stored: Option<string>, defaultPath: string)
    requires WellFormed(newValue)
    ensures DownloadPathChangeAsWritten(newValue, stored, defaultPath) != DownloadPathChange(newValue, stored, defaultPath)
      <==> newValue.Entered? && newValue.text == "" && !newValue.isEmptyLiteral
  {
  }
}
