/**
 * Directory entries as the renderer sees them, the exclusion table, and
 * the label (name plus size suffix) printed for each entry.
 */
module Entries {

  import opened Wrappers
  import Strings
  import Decimal

  /** What `os.FileInfo` tells the renderer: base name, kind and byte size. */
  datatype Info = Info(name: string, isDir: bool, size: int)

  /**
   * Go `error` values. `Cause` is an error from the filesystem; the walker
   * callback wraps it with the path it failed on.
   */
  datatype Error = Cause(message: string) | AccessFailure(path: string, cause: Error)

  /** Base names that are never shown, at any level. */
  const ExcludeNames: set<string> := {".DS_Store", ".vscode", "launch.json", ".git", "__debug_bin"}

  predicate Excluded(name: string)
  {
    name in ExcludeNames
  }

  /** Every excluded name is a single, non-empty path component. */
  lemma ExcludedNameIsComponent(name: string)
    requires Excluded(name)
    ensures name != [] && '/' !in name
  {
  }

  /** The suffix of a file's label: its byte count when positive, otherwise "empty". */
  function SizeSuffix(size: int): string
  {
    if size > 0 then " (" + Decimal.Show(size) + "b)" else " (empty)"
  }

  /**
   * `getNameWithSize`: a directory is labelled by its bare name, a file by
   * its name and size suffix; the error is always `nil`.
   */
  function GetNameWithSize(info: Info): (r: (string, Option<Error>))
    ensures r.1 == None
    ensures info.isDir ==> r.0 == info.name
    ensures !info.isDir && info.size > 0 ==> r.0 == info.name + " (" + Decimal.Show(info.size) + "b)"
    ensures !info.isDir && info.size <= 0 ==> r.0 == info.name + " (empty)"
  {
    if info.isDir then (info.name, None)
    else (info.name + SizeSuffix(info.size), None)
  }

  /** The label alone. */
  function Label(info: Info): string
  {
    GetNameWithSize(info).0
  }

  /** How many decimal digits `s` ends with. */
  function TrailingDigits(s: string): (k: nat)
    ensures k <= |s|
    ensures Decimal.AllDigits(s[|s| - k..])
    ensures k < |s| ==> !Decimal.IsDigit(s[|s| - k - 1])
  {
    if s == [] || !Decimal.IsDigit(s[|s| - 1]) then 0
    else 1 + TrailingDigits(s[..|s| - 1])
  }

  /**
   * Reads a file label back: the name and the size it shows (0 for
   * "empty"), or `None` when the text is not a file label.
   */
  function ParseFileLabel(text: string): Option<(string, nat)>
  {
    if Strings.HasSuffix(text, " (empty)") then Some((text[..|text| - 8], 0))
    else if Strings.HasSuffix(text, "b)") then ParseSized(text[..|text| - 2])
    else None
  }

  /** Reads `name (N` back, where N is a decimal number without leading zero. */
  function ParseSized(body: string): Option<(string, nat)>
  {
    var k := TrailingDigits(body);
    var digits := body[|body| - k..];
    var head := body[..|body| - k];
    if k > 0 && digits[0] != '0' && Strings.HasSuffix(head, " (") then
      Some((head[..|head| - 2], Decimal.Parse(digits)))
    else None
  }

  /** Digits after a non-digit are exactly the trailing digits. */
  lemma {:induction false} TrailingDigitsOf(head: string, digits: string)
    requires Decimal.AllDigits(digits)
    requires head != [] && !Decimal.IsDigit(head[|head| - 1])
    ensures TrailingDigits(head + digits) == |digits|
    decreases |digits|
  {
    if digits == [] {
      assert head + digits == head;
    } else {
      var init := digits[..|digits| - 1];
      TrailingDigitsOf(head, init);
      assert (head + digits)[..|head + digits| - 1] == head + init;
    }
  }

  /** `name (N` reads back as the name and the number. */
  lemma ParseSizedShow(name: string, size: nat)
    requires size > 0
    ensures ParseSized(name + " (" + Decimal.Show(size)) == Some((name, size))
  {
    var d := Decimal.Show(size);
    var head := name + " (";
    var body := head + d;
    assert name + " (" + d == body;
    TrailingDigitsOf(head, d);
    assert body[|body| - |d|..] == d;
    assert body[..|body| - |d|] == head;
    assert head[..|head| - 2] == name;
    Decimal.ParseShow(size);
  }

  /** The label of a file with a positive size reads back as its name and size. */
  lemma SizedLabelRoundTrip(name: string, size: nat)
    requires size > 0
    ensures ParseFileLabel(name + " (" + Decimal.Show(size) + "b)") == Some((name, size))
  {
    var body := name + " (" + Decimal.Show(size);
    var text := body + "b)";
    assert text[|text| - 2] == 'b';
    assert !Strings.HasSuffix(text, " (empty)");
    assert text[..|text| - 2] == body;
    ParseSizedShow(name, size);
  }

  /**
   * A file's label determines its name and its size (sizes that are not
   * positive all read back as 0, the "empty" case).
   */
  lemma FileLabelRoundTrip(info: Info)
    requires !info.isDir
    ensures ParseFileLabel(Label(info)) == Some((info.name, if info.size > 0 then info.size else 0))
  {
    if info.size > 0 {
      SizedLabelRoundTrip(info.name, info.size);
    } else {
      var text := info.name + " (empty)";
      assert Strings.HasSuffix(text, " (empty)");
      assert text[..|text| - 8] == info.name;
    }
  }

}
