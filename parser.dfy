/**
 * The client's readers of XBDM replies: the value after the status code, the `data=`
 * field of a memory reply, the `id=` lines of a directory listing, and the lines of the
 * console-info panel.
 */
module ResponseParser {
  import opened Wrappers
  import opened Text
  import opened Numbers

  // ---------------------------------------------------------------------------
  // extractValue
  // ---------------------------------------------------------------------------

  /**
   * `extractValue`: a line without a space is returned as it is; otherwise the text
   * after the first space, with `value=` deleted (one left-to-right pass of
   * `String.replace`), then trimmed.
   */
  function ExtractValue(line: string): string {
    var i := IndexOfChar(line, ' ', 0);
    if i >= 0 then Trim(RemoveAll(line[i + 1..], "value=")) else line
  }

  /**
   * A line without a space comes back unchanged; otherwise the result is strictly
   * shorter than the line and has nothing left to trim.
   */
  lemma ExtractValueShape(line: string)
    ensures ' ' !in line ==> ExtractValue(line) == line
    ensures ' ' in line ==> |ExtractValue(line)| < |line|
    ensures ' ' in line ==>
              (ExtractValue(line) == [] ||
               (!IsTrimmable(ExtractValue(line)[0]) && !IsTrimmable(ExtractValue(line)[|ExtractValue(line)| - 1])))
  {
    if ' ' in line {
      var i := IndexOfChar(line, ' ', 0);
      var k :| 0 <= k < |line| && line[k] == ' ';
      assert i >= 0;
      var rest := line[i + 1..];
      var cut := RemoveAll(rest, "value=");
      assert ExtractValue(line) == Trim(cut);
      assert |cut| <= |rest| < |line|;
    }
  }

  /** The first space of `key + " " + rest` is the one after the key. */
  lemma FirstSpace(key: string, rest: string)
    requires ' ' !in key
    ensures IndexOfChar(key + " " + rest, ' ', 0) == |key|
  {
    var line := key + " " + rest;
    assert forall j :: 0 <= j < |key| ==> line[j] == key[j];
    IndexOfCharAt(line, ' ', 0, |key|);
  }

  /**
   * A reply `<status> <v>` or `<status> value=<v>`, with a status code free of spaces and
   * a value that holds no `value=` and needs no trimming, yields exactly `v`.
   */
  lemma ExtractValueOfReply(status: string, v: string)
    requires ' ' !in status && !Contains(v, "value=")
    requires v == [] || (!IsTrimmable(v[0]) && !IsTrimmable(v[|v| - 1]))
    ensures ExtractValue(status + " " + v) == v
    ensures ExtractValue(status + " value=" + v) == v
  {
    FirstSpace(status, v);
    assert (status + " " + v)[|status| + 1..] == v;
    RemoveAllUnchangedIff(v, "value=");
    TrimUntrimmed(v);
    var tagged := "value=" + v;
    FirstSpace(status, tagged);
    assert " value=" == " " + "value=";
    assert status + " value=" + v == status + " " + tagged by {
      assert status + " value=" + v == status + (" " + "value=") + v;
    }
    assert (status + " " + tagged)[|status| + 1..] == tagged;
    assert tagged[..6] == "value=" && tagged[6..] == v;
  }

  // ---------------------------------------------------------------------------
  // extractDataField
  // ---------------------------------------------------------------------------

  /**
   * `extractDataField`: the text after the first `data=` up to the next space (or the
   * end), trimmed; None (the source's null) when the reply has no `data=`.
   */
  function ExtractDataField(resp: string): (r: Option<string>)
    ensures r.None? <==> !Contains(resp, "data=")
    ensures r.Some? ==> ' ' !in r.value
    ensures r.Some? ==> r.value == [] || (!IsTrimmable(r.value[0]) && !IsTrimmable(r.value[|r.value| - 1]))
  {
    var i := IndexOf(resp, "data=", 0);
    if i < 0 then None
    else
      var e := IndexOfChar(resp, ' ', i + 5);
      var field := resp[i + 5..if e < 0 then |resp| else e];
      assert forall k :: 0 <= k < |field| ==> field[k] == resp[i + 5 + k];
      TrimKeepsAbsent(field, ' ');
      Some(Trim(field))
  }

  /**
   * A `data=` can only start where its `=` lands, so a prefix without one leaves the
   * first `data=` of `pre + "data=" + rest` right after the prefix.
   */
  lemma FirstData(pre: string, rest: string)
    requires !Contains(pre, "data=")
    ensures IndexOf(pre + "data=" + rest, "data=", 0) == |pre|
  {
    var s := pre + "data=" + rest;
    forall j | 0 <= j < |pre| ensures !OccursAt(s, "data=", j) {
      if j + 5 <= |pre| {
        assert !OccursAt(pre, "data=", j);
        assert s[..|pre|] == pre;
        SliceOfSlice(s, 0, |pre|, j, j + 5);
      } else {
        assert s[j + 4] == "data="[j + 4 - |pre|];
        MismatchAt(s, "data=", j, 4);
      }
    }
    assert s[|pre|..|pre| + 5] == "data=";
    IndexOfAt(s, "data=", 0, |pre|);
  }

  /**
   * A memory reply `<pre>data=<v><tail>`, where the prefix has no `data=`, the value has
   * no space, and the tail is empty or starts with a space, yields `v` trimmed.
   */
  lemma ExtractDataFieldOfReply(pre: string, v: string, tail: string)
    requires !Contains(pre, "data=") && ' ' !in v
    requires tail == [] || tail[0] == ' '
    ensures ExtractDataField(pre + "data=" + v + tail) == Some(Trim(v))
  {
    var s := pre + "data=" + v + tail;
    assert s == pre + "data=" + (v + tail);
    FirstData(pre, v + tail);
    var from := |pre| + 5;
    assert s[from..] == v + tail;
    SpaceAfterRun(s, from, v, tail);
  }

  /** In `...<v><tail>` the next space after the start of `v` is the one opening the tail. */
  lemma SpaceAfterRun(s: string, from: nat, v: string, tail: string)
    requires from <= |s| && s[from..] == v + tail && ' ' !in v
    requires tail == [] || tail[0] == ' '
    ensures s[from..if IndexOfChar(s, ' ', from) < 0 then |s| else IndexOfChar(s, ' ', from)] == v
  {
    assert forall j :: from <= j < |s| ==> s[j] == (v + tail)[j - from];
    if tail == [] {
      assert s[from..] == v;
    } else {
      assert s[from + |v|] == ' ';
      assert s[from..from + |v|] == (v + tail)[..|v|] == v;
    }
  }

  // ---------------------------------------------------------------------------
  // parseDirListing
  // ---------------------------------------------------------------------------

  /** The lines that mention `id=`, trimmed, in order. */
  function IdLines(ls: seq<string>): (r: seq<string>)
    ensures |r| <= |ls|
    decreases |ls|
  {
    if ls == [] then []
    else
      var last := ls[|ls| - 1];
      IdLines(ls[..|ls| - 1]) + (if Contains(last, "id=") then [Trim(last)] else [])
  }

  /** Each line followed by a line feed. */
  function Terminated(ls: seq<string>): (r: string)
    ensures r == [] <==> ls == []
  {
    if ls == [] then [] else Terminated(ls[..|ls| - 1]) + ls[|ls| - 1] + "\n"
  }

  /** What `parseDirListing` returns: the kept lines, or the reply itself when none is kept. */
  function DirListing(resp: string): string {
    var kept := IdLines(Lines(resp));
    if kept == [] then resp else Terminated(kept)
  }

  /**
   * `parseDirListing`: keeps the trimmed lines containing `id=`, each followed by a line
   * feed, and falls back to the whole reply when none does.  `split("\n")` also drops
   * trailing empty pieces, which never contain `id=`, so walking all the pieces is the
   * same.
   */
  method ParseDirListing(resp: string) returns (r: string)
    ensures r == DirListing(resp)
  {
    var ls := Lines(resp);
    var sb := "";
    for i := 0 to |ls|
      invariant sb == Terminated(IdLines(ls[..i]))
    {
      IdLinesStep(ls, i);
      if Contains(ls[i], "id=") {
        var line := Trim(ls[i]);
        TerminatedSnoc(IdLines(ls[..i]), line);
        sb := sb + line + "\n";
        assert IdLines(ls[..i + 1]) == IdLines(ls[..i]) + [line];
        assert sb == Terminated(IdLines(ls[..i + 1]));
      } else {
        assert IdLines(ls[..i + 1]) == IdLines(ls[..i]);
      }
    }
    assert ls[..|ls|] == ls;
    r := if |sb| == 0 then resp else sb;
  }

  /** Every kept line mentions `id=`, needs no trimming and has no line feed. */
  lemma {:induction false} IdLinesShape(ls: seq<string>)
    requires forall k :: 0 <= k < |ls| ==> '\n' !in ls[k]
    ensures forall k :: 0 <= k < |IdLines(ls)| ==>
              Contains(IdLines(ls)[k], "id=") && Trim(IdLines(ls)[k]) == IdLines(ls)[k] && '\n' !in IdLines(ls)[k]
    decreases |ls|
  {
    if ls != [] {
      var last := ls[|ls| - 1];
      IdLinesShape(ls[..|ls| - 1]);
      if Contains(last, "id=") {
        var i :| OccursAt(last, "id=", i);
        TrimKeepsOccurrence(last, "id=", i);
        TrimIdempotent(last);
        TrimKeepsAbsent(last, '\n');
      }
    }
  }

  /** One more line keeps the kept lines so far and adds that line when it mentions `id=`. */
  lemma IdLinesStep(ls: seq<string>, i: nat)
    requires i < |ls|
    ensures IdLines(ls[..i + 1]) == IdLines(ls[..i]) + (if Contains(ls[i], "id=") then [Trim(ls[i])] else [])
  {
    assert ls[..i + 1][..i] == ls[..i];
  }

  lemma TerminatedSnoc(ls: seq<string>, x: string)
    ensures Terminated(ls + [x]) == Terminated(ls) + x + "\n"
  {
    assert (ls + [x])[..|ls|] == ls;
  }

  /** `Terminated` is `JoinLines` with one empty piece more at the end. */
  lemma {:induction false} TerminatedAsJoin(ls: seq<string>)
    ensures Terminated(ls) == JoinLines(ls + [[]])
    decreases |ls|
  {
    if ls != [] {
      var init, last := ls[..|ls| - 1], ls[|ls| - 1];
      assert ls == init + [last];
      TerminatedAsJoin(init);
      assert ls + [[]] == (init + [last]) + [[]];
      JoinLinesSnoc(init + [last], []);
      if init != [] {
        JoinLinesSnoc(init, last);
        JoinLinesSnoc(init, []);
      }
    }
  }

  /** Splitting the output on line feeds gives the lines back, then the empty piece after the last. */
  lemma LinesOfTerminated(ls: seq<string>)
    requires forall k :: 0 <= k < |ls| ==> '\n' !in ls[k]
    ensures Lines(Terminated(ls)) == ls + [[]]
  {
    TerminatedAsJoin(ls);
    LinesOfJoinLines(ls + [[]]);
  }

  /**
   * The listing keeps exactly the trimmed `id=` lines of the reply, one per line, and is
   * the reply itself when it has none.
   */
  lemma DirListingLines(resp: string)
    ensures IdLines(Lines(resp)) == [] ==> DirListing(resp) == resp
    ensures IdLines(Lines(resp)) != [] ==> Lines(DirListing(resp)) == IdLines(Lines(resp)) + [[]]
    ensures forall k :: 0 <= k < |IdLines(Lines(resp))| ==> Contains(IdLines(Lines(resp))[k], "id=")
  {
    IdLinesShape(Lines(resp));
    var kept := IdLines(Lines(resp));
    if kept != [] {
      LinesOfTerminated(kept);
    }
  }

  // ---------------------------------------------------------------------------
  // The console-info lines
  // ---------------------------------------------------------------------------

  /** The labels of the console-info panel, in query order. */
  const Labels: seq<string> := [
    "Kernel Version: ",
    "Console Type:    ",
    "CPU Key:         ",
    "Current Title ID:",
    "CPU Temp:        ",
    "GPU Temp:        "
  ]

  /** `labels[i].trim().endsWith("Temp:")`. */
  predicate IsTempLabel(name: string) {
    EndsWith(Trim(name), "Temp:")
  }

  /**
   * One line of the panel: a temperature reading in hex is shown in decimal with " C",
   * and shown as received (still with " C") when `Integer.parseInt(val, 16)` fails;
   * other values are shown as received.
   */
  function InfoLine(name: string, val: string): (r: string)
    ensures !IsTempLabel(name) ==> r == name + val + "\n"
    ensures IsTempLabel(name) && ParseJava(val, 16, Int).None? ==> r == name + val + " C\n"
  {
    if IsTempLabel(name) then
      (match ParseJava(val, 16, Int)
       case Some(t) => name + IntToString(t) + " C\n"
       case None => name + val + " C\n")
    else name + val + "\n"
  }

  /**
   * A temperature the console reports as hex digits of either case, leading zeros
   * allowed, is shown as the decimal rendering of their value, whenever it fits an int.
   */
  lemma TemperatureInDecimal(name: string, val: string)
    requires IsTempLabel(name) && val != [] && AllDigits(val, 16) && DigitsValue(val, 16) <= MaxValue(Int)
    ensures InfoLine(name, val) == name + IntToString(DigitsValue(val, 16)) + " C\n"
  {
    DigitsParse(val, 16, Int);
  }

  /** The console's own rendering of a temperature, lower-case hex, is shown in decimal. */
  lemma TemperatureRenderedInDecimal(name: string, t: nat)
    requires IsTempLabel(name) && t <= MaxValue(Int)
    ensures InfoLine(name, ToDigits(t, 16)) == name + IntToString(t) + " C\n"
  {
    ToDigitsValue(t, 16);
    TemperatureInDecimal(name, ToDigits(t, 16));
  }
}
