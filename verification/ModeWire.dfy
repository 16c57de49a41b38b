/** mariia: the MODE broadcast as text, and what a reader of that text can do with it. */
module ModeWire {
  import opened Lists
  import opened Strings
  import opened Tokens
  import opened Channel
  import opened ModeLog

  /** The parameters of the notification sent to the members. */
  function BroadcastText(channelName: string, changedModes: string, parametersSet: seq<string>): string {
    channelName + " " + changedModes + " " + Merged(parametersSet)
  }

  /** Reading the broadcast as a MODE request gives the channel, the mode string and exactly the non-empty
      parameters. */
  lemma WireRoundTrip(channelName: string, changedModes: string, parametersSet: seq<string>)
    requires Spaceless(channelName) && channelName != ""
    requires Spaceless(changedModes) && changedModes != ""
    requires AllSpaceless(parametersSet)
    ensures Words("MODE " + BroadcastText(channelName, changedModes, parametersSet))
         == ["MODE", channelName, changedModes] + NonEmpty(parametersSet)
  {
    hide Words, Merged, NonEmpty;
    var tail := Merged(parametersSet);
    var inner := changedModes + " " + tail;
    var outer := channelName + " " + inner;
    assert Spaceless("MODE");
    WordsOfMerged(parametersSet);
    WordsCons(changedModes, tail);
    WordsCons(channelName, inner);
    WordsCons("MODE", outer);
    assert BroadcastText(channelName, changedModes, parametersSet) == outer;
    assert "MODE " + outer == "MODE" + " " + outer;
    assert ["MODE"] + ([channelName] + ([changedModes] + NonEmpty(parametersSet)))
        == ["MODE", channelName, changedModes] + NonEmpty(parametersSet);
  }

  /** Taken apart at each single blank, the broadcast is the channel, the mode string and all parameters, empty
      ones included. */
  lemma BroadcastParts(channelName: string, changedModes: string, parametersSet: seq<string>)
    requires parametersSet != [] && ' ' !in channelName && ' ' !in changedModes && forall p :: p in parametersSet ==> ' ' !in p
    ensures Split(BroadcastText(channelName, changedModes, parametersSet), ' ') == [channelName, changedModes] + parametersSet
  {
    hide Split;
    var words := [channelName, changedModes] + parametersSet;
    assert words[1..] == [changedModes] + parametersSet && words[1..][1..] == parametersSet;
    assert Merged(words) == channelName + " " + (changedModes + " " + Merged(parametersSet));
    assert BroadcastText(channelName, changedModes, parametersSet) == Merged(words);
    SplitMerged(words);
  }

  ghost predicate LoopSpaceless(l: Loop) {
    Sign(l.settingMode) && AllSpaceless(l.rest) && AllSpaceless(l.parametersSet) && Spaceless(l.changedModes)
  }

  lemma {:induction false} TurnsSpaceless(l: Loop, modes: string, nicks: Nicks)
    requires LoopSpaceless(l) && Spaceless(modes)
    ensures LoopSpaceless(Turns(l, modes, nicks))
    decreases |modes|
  {
    hide Handle;
    if modes != "" {
      assert !IsSpace('+') && !IsSpace('-');
      TurnsSpaceless(Turn(l, modes[0], nicks), modes[1..], nicks);
    }
  }

  /** The broadcast survives the wire. Take any request line with a channel and a mode string; if the broadcast is not
      empty, then a reader who splits it into words and performs it as a MODE request on the same channel ends
      with the same channel, and would broadcast the same text. */
  lemma ReplayOverTheWire(c: Chan, line: string, nicks: Nicks)
    requires KeyAgrees(c) && |Words(line)| >= 3
    ensures var tokens := Words(line);
            var r := Turns(Start(c, tokens[3..]), tokens[2], nicks);
            var text := BroadcastText(tokens[1], r.changedModes, r.parametersSet);
            r.changedModes != "" ==>
              var heard := Words("MODE " + text);
              && |heard| >= 3 && heard[..2] == ["MODE", tokens[1]]
              && var again := Turns(Start(c, heard[3..]), heard[2], nicks);
                 Same(again.chan, r.chan) && BroadcastText(tokens[1], again.changedModes, again.parametersSet) == text
  {
    hide Words, Turns, Same, BroadcastText;
    var tokens := Words(line);
    WordsClean(line);
    assert forall i :: 0 <= i < |tokens| ==> Spaceless(tokens[i]) && tokens[i] in tokens;
    var l := Start(c, tokens[3..]);
    TurnsSpaceless(l, tokens[2], nicks);
    var r := Turns(l, tokens[2], nicks);
    Replay(c, tokens[2], tokens[3..], nicks);
    if r.changedModes != "" {
      WireRoundTrip(tokens[1], r.changedModes, r.parametersSet);
      var heard := ["MODE", tokens[1], r.changedModes] + NonEmpty(r.parametersSet);
      assert heard[3..] == NonEmpty(r.parametersSet);
      assert heard[..2] == ["MODE", tokens[1]];
    }
  }
}
