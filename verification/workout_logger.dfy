/** The workout part of the tracker form: the worked-out switch and the
    exercise list with its text field. */
module WorkoutLogger {

  /** The characters `String.prototype.trim` removes: the ECMAScript
      WhiteSpace and LineTerminator code points. */
  predicate IsJsSpace(c: char)
  {
    var k := c as int;
    k == 0x09 || k == 0x0A || k == 0x0B || k == 0x0C || k == 0x0D || k == 0x20
    || k == 0xA0 || k == 0x1680 || (0x2000 <= k <= 0x200A) || k == 0x2028 || k == 0x2029
    || k == 0x202F || k == 0x205F || k == 0x3000 || k == 0xFEFF
  }

  /** s without its leading white space: a suffix of s that does not start
      with white space, and everything cut off is white space. */
  function TrimStart(s: string): (r: string)
    ensures |r| <= |s| && r == s[|s| - |r|..]
    ensures |r| > 0 ==> !IsJsSpace(r[0])
    ensures forall i :: 0 <= i < |s| - |r| ==> IsJsSpace(s[i])
  {
    if |s| > 0 && IsJsSpace(s[0]) then TrimStart(s[1..]) else s
  }

  /** s without its trailing white space: a prefix of s that does not end
      with white space, and everything cut off is white space. */
  function TrimEnd(s: string): (r: string)
    ensures |r| <= |s| && r == s[..|r|]
    ensures |r| > 0 ==> !IsJsSpace(r[|r| - 1])
    ensures forall i :: |r| <= i < |s| ==> IsJsSpace(s[i])
  {
    if |s| > 0 && IsJsSpace(s[|s| - 1]) then TrimEnd(s[..|s| - 1]) else s
  }

  /** `s.trim()`. */
  function Trim(s: string): string
  {
    TrimEnd(TrimStart(s))
  }

  /** The trimmed string is a slice of s with white space cut from both ends
      and none left at either end. */
  lemma TrimIsSlice(s: string)
    ensures exists i, j ::
              0 <= i <= j <= |s| && Trim(s) == s[i..j]
              && (forall k :: 0 <= k < i ==> IsJsSpace(s[k]))
              && (forall k :: j <= k < |s| ==> IsJsSpace(s[k]))
    ensures |Trim(s)| > 0 ==> !IsJsSpace(Trim(s)[0]) && !IsJsSpace(Trim(s)[|Trim(s)| - 1])
  {
    var t := TrimStart(s);
    var i := |s| - |t|;
    var j := i + |TrimEnd(t)|;
    assert Trim(s) == s[i..j];
    assert forall k :: j <= k < |s| ==> IsJsSpace(s[k]) by {
      forall k | j <= k < |s| ensures IsJsSpace(s[k]) {
        assert s[k] == t[k - i];
      }
    }
  }

  /** `newExercise.trim()` is falsy exactly for an input made only of white space. */
  lemma TrimBlank(s: string)
    ensures Trim(s) == "" <==> forall k :: 0 <= k < |s| ==> IsJsSpace(s[k])
  {
  }

  /** Trimming twice is trimming once. */
  lemma TrimIdempotent(s: string)
    ensures Trim(Trim(s)) == Trim(s)
  {
    var r := Trim(s);
    TrimIsSlice(s);
    if |r| > 0 {
      assert TrimStart(r) == r;
      assert TrimEnd(r) == r;
    }
  }

  /** `exercises.filter((_, i) => i !== index)`, scanning from the front. */
  function KeepOthers(xs: seq<string>, index: int): (r: seq<string>)
  {
    if |xs| == 0 then []
    else KeepOthers(xs[..|xs| - 1], index) + (if |xs| - 1 != index then [xs[|xs| - 1]] else [])
  }

  /** An index inside the list removes exactly that element and keeps the
      others in order; any other index leaves the list as it is. */
  lemma {:induction false} KeepOthersRemoves(xs: seq<string>, index: int)
    ensures 0 <= index < |xs| ==> KeepOthers(xs, index) == xs[..index] + xs[index + 1..]
    ensures !(0 <= index < |xs|) ==> KeepOthers(xs, index) == xs
  {
    if |xs| > 0 {
      var n := |xs|;
      var init := xs[..n - 1];
      KeepOthersRemoves(init, index);
      if index == n - 1 {
        assert xs[..index] == init;
        assert xs[index + 1..] == [];
      } else if 0 <= index < n - 1 {
        assert init[..index] == xs[..index];
        assert init[index + 1..] + [xs[n - 1]] == xs[index + 1..];
      } else {
        assert init + [xs[n - 1]] == xs;
      }
    }
  }

  /** The removal lowers the length by one for an index in range. */
  lemma KeepOthersLength(xs: seq<string>, index: int)
    ensures |KeepOthers(xs, index)| == if 0 <= index < |xs| then |xs| - 1 else |xs|
  {
    KeepOthersRemoves(xs, index);
  }

  /** The workout state of one day's form: the switch and the exercise list
      the form holds, and the logger's own text field. */
  class WorkoutForm {
    var workedOut: bool
    var exercises: seq<string>
    var newExercise: string

    constructor(workedOut0: bool, exercises0: seq<string>)
      ensures workedOut == workedOut0 && exercises == exercises0 && newExercise == ""
    {
      workedOut := workedOut0;
      exercises := exercises0;
      newExercise := "";
    }

    /** The text field's `onChange`. */
    method Type(text: string)
      modifies this
      ensures newExercise == text
      ensures workedOut == old(workedOut) && exercises == old(exercises)
    {
      newExercise := text;
    }

    /** `addExercise`: a blank field changes nothing; otherwise the trimmed
      text is appended (duplicates included) and the field is cleared. */
    method AddExercise()
      modifies this
      ensures Trim(old(newExercise)) == "" ==>
        exercises == old(exercises) && newExercise == old(newExercise)
      ensures Trim(old(newExercise)) != "" ==>
        exercises == old(exercises) + [Trim(old(newExercise))] && newExercise == ""
      ensures workedOut == old(workedOut)
    {
      var trimmed := Trim(newExercise);
      if trimmed != "" {
        exercises := exercises + [trimmed];
        newExercise := "";
      }
    }

    /** `removeExercise(index)`. */
    method RemoveExercise(index: int)
      modifies this
      ensures exercises == KeepOthers(old(exercises), index)
      ensures workedOut == old(workedOut) && newExercise == old(newExercise)
    {
      exercises := KeepOthers(exercises, index);
    }

    /** The switch: `onToggleWorkout(!workedOut)`.  Switching off hides the
      exercise list but keeps it. */
    method ToggleWorkout()
      modifies this
      ensures workedOut == !old(workedOut)
      ensures exercises == old(exercises) && newExercise == old(newExercise)
    {
      workedOut := !workedOut;
    }
  }
}
