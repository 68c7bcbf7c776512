/**
 * `list_choice`: the numbered-menu prompt. The user types a 1-based option number; a line
 * that is not an integer, or an integer outside 1..count, is rejected and the prompt repeats.
 */
module Choice {
  import opened Wrappers

  /**
   * The acceptance rule for one line: `None` stands for a line `int()` cannot parse.
   * An accepted choice is returned as a 0-based index.
   */
  function Accept(line: Option<int>, count: nat): (r: Option<nat>)
    ensures r.Some? <==> line.Some? && 1 <= line.value <= count
    ensures r.Some? ==> r.value < count && r.value + 1 == line.value
  {
    match line
    case None => None
    case Some(choice) =>
      if 0 >= choice || choice >= count + 1 then None else Some(choice - 1)
  }

  /**
   * The retry loop: read lines until one is accepted. `consumed` lines were read; running
   * out of lines stands for a prompt that never gets a valid answer.
   */
  method ListChoice(lines: seq<Option<int>>, count: nat) returns (index: Option<nat>, consumed: nat)
    ensures consumed <= |lines|
    ensures forall j :: 0 <= j < consumed && (j < consumed - 1 || index.None?) ==> Accept(lines[j], count).None?
    ensures index.Some? ==> consumed > 0 && index == Accept(lines[consumed - 1], count)
    ensures index.Some? ==> index.value < count
    ensures index.None? ==> consumed == |lines|
  {
    index, consumed := None, 0;
    while consumed < |lines|
      invariant consumed <= |lines|
      invariant forall j :: 0 <= j < consumed ==> Accept(lines[j], count).None?
    {
      var line := lines[consumed];
      consumed := consumed + 1;
      if line.Some? {
        var choice := line.value;
        if 0 >= choice || choice >= count + 1 {
          // "Invalid choice!": ask again
        } else {
          index := Some(choice - 1);
          return;
        }
      }
    }
  }
}
