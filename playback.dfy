/**
 * One tick of `main_monitor` (streamlit_app.py:169-202): read the shared
 * detection, and once the playback delay has passed play the mapped sound
 * file, unless the same text was already played less than a minute ago.
 */
module Playback {
  import opened Opt
  import opened Detection

  /** What one tick does: `st.audio(path)`, `st.warning` about a missing file, or nothing. */
  datatype Outcome = Play(path: string) | MissingFile(path: string) | Idle

  /** `last_played`: the text last played and when. */
  datatype Played = Played(text: Option<string>, time: real)

  /** The shared detection as read in one tick, and the clock at that tick. */
  datatype Tick = Tick(text: Option<string>, ts: real, now: real)

  /** Seconds after which the text last played may play again. */
  const ReplayAfter: real := 60.0

  const SoundsDir: string := "sounds"

  /** `os.path.join("sounds", file)` with POSIX rules: an absolute file name
      replaces the directory. */
  function AudioPath(file: string): (p: string)
    ensures |file| <= |p| && p[|p| - |file|..] == file
    ensures (file == [] || file[0] != '/') ==>
              |p| == |SoundsDir| + 1 + |file| && p[..|SoundsDir| + 1] == SoundsDir + "/"
    ensures file != [] && file[0] == '/' ==> p == file
  {
    if file != [] && file[0] == '/' then file else SoundsDir + "/" + file
  }

  /** The decision of one tick, given `last_played` before it. */
  function Decide(t: Tick, playDelay: real, last: Played,
                  mapping: map<string, string>, fileExists: string -> bool): (o: Outcome)
    ensures o.Play? ==> t.text.Some? && t.text.value in mapping
                        && o.path == AudioPath(mapping[t.text.value]) && fileExists(o.path)
    ensures o.MissingFile? ==> t.text.Some? && t.text.value in mapping
                               && o.path == AudioPath(mapping[t.text.value]) && !fileExists(o.path)
    ensures o != Idle <==>
              && t.text.Some? && t.text.value != []
              && t.now - t.ts >= playDelay
              && (t.text != last.text || t.now - last.time > ReplayAfter)
              && t.text.value in mapping && mapping[t.text.value] != []
  {
    match t.text
    case None => Idle
    case Some(text) =>
      if text == [] then Idle
      else if t.now - t.ts < playDelay then Idle
      else if t.text == last.text && t.now - last.time <= ReplayAfter then Idle
      else if text !in mapping || mapping[text] == [] then Idle
      else
        var path := AudioPath(mapping[text]);
        if fileExists(path) then Play(path) else MissingFile(path)
  }

  /** `last_played` after a tick: it moves only when a sound is played. */
  function After(last: Played, o: Outcome, t: Tick): (next: Played)
    ensures !o.Play? ==> next == last
    ensures o.Play? ==> next.text == t.text && next.time == t.now
  {
    if o.Play? then Played(t.text, t.now) else last
  }

  /** The outcomes of consecutive ticks, starting from `last`. */
  function Run(last: Played, ticks: seq<Tick>, playDelay: real,
               mapping: map<string, string>, fileExists: string -> bool): (outs: seq<Outcome>)
    ensures |outs| == |ticks|
    ensures ticks != [] ==> outs[0] == Decide(ticks[0], playDelay, last, mapping, fileExists)
    decreases |ticks|
  {
    if ticks == [] then []
    else
      var o := Decide(ticks[0], playDelay, last, mapping, fileExists);
      [o] + Run(After(last, o, ticks[0]), ticks[1..], playDelay, mapping, fileExists)
  }

  /** Ticks that play nothing leave `last_played` alone, so the first tick after
      them is decided against the same `last_played`. */
  lemma {:induction false} QuietTicksKeepLast(last: Played, ticks: seq<Tick>, playDelay: real,
                                              mapping: map<string, string>, fileExists: string -> bool, j: nat)
    requires j < |ticks|
    requires forall k | 0 <= k < j :: !Run(last, ticks, playDelay, mapping, fileExists)[k].Play?
    ensures Run(last, ticks, playDelay, mapping, fileExists)[j]
            == Decide(ticks[j], playDelay, last, mapping, fileExists)
    decreases j
  {
    if j > 0 {
      var outs := Run(last, ticks, playDelay, mapping, fileExists);
      var o := Decide(ticks[0], playDelay, last, mapping, fileExists);
      assert outs[0] == o;
      var rest := Run(After(last, o, ticks[0]), ticks[1..], playDelay, mapping, fileExists);
      assert outs == [o] + rest;
      assert After(last, o, ticks[0]) == last;
      forall k | 0 <= k < j - 1 ensures !rest[k].Play? {
        assert rest[k] == outs[k + 1];
      }
      QuietTicksKeepLast(last, ticks[1..], playDelay, mapping, fileExists, j - 1);
      assert outs[j] == rest[j - 1];
    }
  }

  /** A text is never played twice within a minute: when ticks `i < j` both play
      the same text and no tick between them plays anything, tick `j` comes more
      than `ReplayAfter` seconds after tick `i`. */
  lemma {:induction false} NoReplayWithinMinute(last: Played, ticks: seq<Tick>, playDelay: real,
                                                mapping: map<string, string>, fileExists: string -> bool,
                                                i: nat, j: nat)
    requires i < j < |ticks|
    requires Run(last, ticks, playDelay, mapping, fileExists)[i].Play?
    requires Run(last, ticks, playDelay, mapping, fileExists)[j].Play?
    requires forall k | i < k < j :: !Run(last, ticks, playDelay, mapping, fileExists)[k].Play?
    requires ticks[i].text == ticks[j].text
    ensures ticks[j].now - ticks[i].now > ReplayAfter
    decreases i
  {
    var outs := Run(last, ticks, playDelay, mapping, fileExists);
    var o := Decide(ticks[0], playDelay, last, mapping, fileExists);
    var next := After(last, o, ticks[0]);
    var rest := Run(next, ticks[1..], playDelay, mapping, fileExists);
    assert outs == [o] + rest;
    if i == 0 {
      assert next == Played(ticks[0].text, ticks[0].now);
      forall k | 0 <= k < j - 1 ensures !rest[k].Play? {
        assert rest[k] == outs[k + 1];
      }
      QuietTicksKeepLast(next, ticks[1..], playDelay, mapping, fileExists, j - 1);
      assert rest[j - 1] == outs[j];
    } else {
      forall k | i - 1 < k < j - 1 ensures !rest[k].Play? {
        assert rest[k] == outs[k + 1];
      }
      assert rest[i - 1] == outs[i] && rest[j - 1] == outs[j];
      NoReplayWithinMinute(next, ticks[1..], playDelay, mapping, fileExists, i - 1, j - 1);
    }
  }

  /** The monitor thread's `last_played`, with the mapping it plays from. */
  class Monitor {
    var lastText: Option<string>
    var lastTime: real
    const mapping: map<string, string>

    /** Only a mapped text with a non-empty file name is ever recorded as played. */
    ghost predicate Valid()
      reads this
    {
      lastText.Some? ==> lastText.value in mapping && mapping[lastText.value] != []
    }

    constructor (mapping: map<string, string>)
      ensures Valid() && this.mapping == mapping
      ensures lastText == None && lastTime == 0.0
    {
      this.mapping := mapping;
      lastText := None;
      lastTime := 0.0;
    }

    /** One iteration of the monitor loop at time `now`, reading `slot`. */
    method Step(slot: DetectionSlot, now: real, playDelay: real, fileExists: string -> bool)
      returns (o: Outcome)
      requires Valid()
      modifies this
      ensures Valid()
      ensures o == Decide(Tick(slot.text, slot.timestamp, now), playDelay,
                          Played(old(lastText), old(lastTime)), mapping, fileExists)
      ensures Played(lastText, lastTime)
              == After(Played(old(lastText), old(lastTime)), o, Tick(slot.text, slot.timestamp, now))
    {
      var text := slot.text;
      var ts := slot.timestamp;
      o := Idle;
      if text.Some? && text.value != [] {
        if now - ts >= playDelay {
          if text != lastText || now - lastTime > ReplayAfter {
            if text.value in mapping && mapping[text.value] != [] {
              var path := AudioPath(mapping[text.value]);
              if fileExists(path) {
                o := Play(path);
                lastText := text;
                lastTime := now;
              } else {
                o := MissingFile(path);
              }
            }
          }
        }
      }
    }
  }
}
