/** The name-to-number maps of the visualizer (Visualizer/utils.py). */
module Utils {
  import opened Wrappers
  import opened Text

  /** `layer_name_to_int` (Visualizer/utils.py:4-16): the two layer names map
      to their index, "Combined" to -1, and every other name to 0. */
  function LayerNameToInt(name: string): (r: int)
    ensures r in {-1, 0, 1}
    ensures r == 1 <==> name == "Layer 1"
    ensures r == -1 <==> name == "Combined"
  {
    match name
    case "Layer 0" => 0
    case "Layer 1" => 1
    case "Combined" => -1
    case _ => 0
  }

  /** The name the drop-down shows for a layer number. */
  function LayerName(i: int): string
    requires i in {-1, 0, 1}
  {
    if i == 0 then "Layer 0" else if i == 1 then "Layer 1" else "Combined"
  }

  /** Every layer number survives naming and mapping back. */
  lemma LayerNameRoundTrip(i: int)
    requires i in {-1, 0, 1}
    ensures LayerNameToInt(LayerName(i)) == i
  {
  }

  /** `testcase_name_to_int` (Visualizer/utils.py:18-23): "User Input" is -1,
      any other name goes through `int`, which fails on non-numbers. */
  function TestcaseNameToInt(name: string): Option<int> {
    if name == "User Input" then Some(-1) else ParseInt(name)
  }

  /** A decimal name maps to its number, so "0" to "4" map to 0 to 4. */
  lemma TestcaseNumbers(n: int)
    ensures TestcaseNameToInt(ShowInt(n)) == Some(n)
  {
    ShowIntPlain(n);
    assert ShowInt(n) != "User Input";
    ParseShow(n);
  }

  /** A name other than "User Input" with an ASCII letter in it is not a
      test-case number: `int` raises on it. */
  lemma TestcaseRejectsWords(name: string, i: nat)
    requires name != "User Input"
    requires i < |name| && (IsUpper(name[i]) || IsLower(name[i]))
    ensures TestcaseNameToInt(name).None?
  {
    ParseRejectsLetter(name, i);
  }
}
