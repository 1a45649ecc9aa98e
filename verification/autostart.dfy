/**
 `Hello.set_autostart`: register or unregister the program for start on
 login. The registration is a symlink at the autostart path; when an i3
 configuration file exists, its launch directive is also uncommented or
 commented out by rewriting the whole text. Any `OSError` is caught, and the
 switch state `self.autostart` changes only when every step succeeded.
 */
module Autostart {
  import opened Wrappers
  import opened PyStr
  import opened Environment

  /** The i3 launch directive and its commented-out form. */
  const I3Autostart: string := "exec --no-startup-id " + App
  const I3Commented: string := "#" + I3Autostart

  /** `content.replace("#" + i3_autostart, i3_autostart)` */
  function EnableI3(config: string): string {
    ReplaceAll(config, I3Commented, I3Autostart)
  }

  /** `content.replace(i3_autostart, "#" + i3_autostart)` */
  function DisableI3(config: string): string {
    ReplaceAll(config, I3Autostart, I3Commented)
  }

  function RewriteI3(want: bool, config: string): string {
    if want then EnableI3(config) else DisableI3(config)
  }

  /**
   What `set_autostart` reads and writes: the switch field, whether a file is
   at the autostart path (`os.path.isfile(fix_path(autostart_path))`), and the
   text of `~/.i3/config` when that file exists.
   */
  datatype AutostartState = AutostartState(autostart: bool, linkExists: bool, i3Config: Option<string>)

  /**
   Which of the calls that can raise `OSError` do raise when they are made:
   `os.symlink`/`os.unlink`, and opening, reading or writing the i3 file.
   */
  datatype IoFaults = IoFaults(linkFails: bool, configFails: bool)

  const NoFaults: IoFaults := IoFaults(false, false)

  /** The symlink operation attempted by a call, if any. */
  datatype LinkAction = NoLinkOp | CreateLink | RemoveLink

  /** `IoFailed` stands for an `OSError` that was caught and printed. */
  datatype Outcome = Applied | IoFailed

  datatype Toggled = Toggled(state: AutostartState, outcome: Outcome, action: LinkAction)

  /** The symlink operation a request calls for in a given state. */
  function LinkActionFor(linkExists: bool, want: bool): LinkAction {
    if want && !linkExists then CreateLink
    else if !want && linkExists then RemoveLink
    else NoLinkOp
  }

  /**
   One call of `set_autostart(want)` as a state transition: first the link
   step, then the i3 rewrite, then the switch field; a fault ends the call and
   keeps what the earlier steps did.
   */
  function Toggle(s: AutostartState, want: bool, faults: IoFaults): Toggled {
    var action := LinkActionFor(s.linkExists, want);
    if action != NoLinkOp && faults.linkFails then
      Toggled(s, IoFailed, action)
    else
      var linked := s.(linkExists := want);
      match s.i3Config
      case None => Toggled(linked.(autostart := want), Applied, action)
      case Some(config) =>
        if faults.configFails then Toggled(linked, IoFailed, action)
        else Toggled(linked.(i3Config := Some(RewriteI3(want, config)), autostart := want), Applied, action)
  }

  /**
   Without faults the call succeeds: the link exists exactly when wanted, the
   switch holds the wanted value, and the i3 text is the rewritten text.
   */
  lemma ToggleWithoutFaults(s: AutostartState, want: bool)
    ensures var r := Toggle(s, want, NoFaults);
            && r.outcome == Applied
            && r.state.linkExists == want && r.state.autostart == want
            && r.state.i3Config == (if s.i3Config.Some? then Some(RewriteI3(want, s.i3Config.value)) else None)
  {
  }

  /**
   The link is created only when wanted and absent, removed only when not
   wanted and present, and left alone when it already matches.
   */
  lemma LinkTouchedOnlyOnChange(s: AutostartState, want: bool, faults: IoFaults)
    ensures var r := Toggle(s, want, faults);
            && (r.action == CreateLink <==> want && !s.linkExists)
            && (r.action == RemoveLink <==> !want && s.linkExists)
            && (r.action == NoLinkOp <==> want == s.linkExists)
            && (r.action == NoLinkOp ==> r.state.linkExists == s.linkExists)
  {
  }

  /**
   The switch takes the wanted value exactly when the call succeeds; after a
   failure it keeps its old value.
   */
  lemma SwitchChangesOnlyOnSuccess(s: AutostartState, want: bool, faults: IoFaults)
    ensures var r := Toggle(s, want, faults);
            && (r.outcome == Applied ==> r.state.autostart == want)
            && (r.outcome == IoFailed ==> r.state.autostart == s.autostart)
            && (r.outcome == IoFailed <==>
                  (r.action != NoLinkOp && faults.linkFails) || (s.i3Config.Some? && faults.configFails))
  {
  }

  /** A failing symlink call leaves everything as it was, the i3 file included. */
  lemma LinkFaultTouchesNothing(s: AutostartState, want: bool, faults: IoFaults)
    requires LinkActionFor(s.linkExists, want) != NoLinkOp && faults.linkFails
    ensures Toggle(s, want, faults) == Toggled(s, IoFailed, LinkActionFor(s.linkExists, want))
  {
  }

  /** Asking again for the same state needs no symlink operation. */
  lemma RepeatNeedsNoLinkOp(s: AutostartState, want: bool, f1: IoFaults, f2: IoFaults)
    requires !(LinkActionFor(s.linkExists, want) != NoLinkOp && f1.linkFails)
    ensures Toggle(Toggle(s, want, f1).state, want, f2).action == NoLinkOp
  {
  }

  lemma NoMarkInDirective()
    ensures '#' !in I3Autostart && I3Commented == ['#'] + I3Autostart
  {
    assert I3Autostart == "exec --no-startup-id manjaro-hello";
  }

  /** Uncommenting after commenting out gives back the original i3 text. */
  lemma EnableAfterDisable(config: string)
    ensures EnableI3(DisableI3(config)) == config
  {
    NoMarkInDirective();
    MarkThenUnmark(config, I3Autostart, '#');
  }

  /**
   Disabling and then enabling without faults restores the i3 text and
   leaves the link present and the switch on.
   */
  lemma DisableThenEnableRestores(s: AutostartState)
    ensures var r := Toggle(Toggle(s, false, NoFaults).state, true, NoFaults);
            r.outcome == Applied && r.state == s.(autostart := true, linkExists := true)
  {
    if s.i3Config.Some? {
      EnableAfterDisable(s.i3Config.value);
    }
  }

  /** Every launch directive in the i3 text is already commented out. */
  predicate AllCommented(config: string) {
    EveryOccurrenceMarked(config, I3Autostart, '#')
  }

  /** No proper suffix of the directive is also a prefix of it. */
  lemma DirectiveNoSelfOverlap()
    ensures NoSelfOverlap(I3Autostart)
  {
    assert I3Autostart == "exec --no-startup-id manjaro-hello";
    forall d | 0 < d < |I3Autostart|
      ensures !StartsWith(I3Autostart, I3Autostart[d..])
    {
      var x := I3Autostart;
      var n := |x| - d;
      assert x[d..][n - 1] == x[|x| - 1] && x[d..][0] == x[d];
      assert x[d] != x[0] || x[n - 1] != x[|x| - 1];
    }
  }

  /**
   Commenting out after uncommenting gives back an i3 text whose directives
   were all commented out.
   */
  lemma DisableAfterEnable(config: string)
    requires AllCommented(config)
    ensures DisableI3(EnableI3(config)) == config
  {
    NoMarkInDirective();
    DirectiveNoSelfOverlap();
    UnmarkThenMark(config, I3Autostart, '#');
  }

  /**
   Enabling then disabling without faults restores an i3 text whose directives
   were all commented out, and leaves the link absent and the switch off.
   */
  lemma EnableThenDisableRestores(s: AutostartState)
    requires s.i3Config.Some? ==> AllCommented(s.i3Config.value)
    ensures var r := Toggle(Toggle(s, true, NoFaults).state, false, NoFaults);
            r.outcome == Applied && r.state == s.(autostart := false, linkExists := false)
  {
    if s.i3Config.Some? {
      DisableAfterEnable(s.i3Config.value);
    }
  }

  /**
   Without that condition the text is not restored: a directive that was not
   commented out comes back commented out.
   */
  lemma EnableThenDisableCommentsBareDirective()
    ensures DisableI3(EnableI3(I3Autostart)) == I3Commented
    ensures I3Autostart != I3Commented
  {
    NoMarkInDirective();
    assert !StartsWith(I3Autostart, I3Commented) by {
      assert I3Autostart[0] != I3Commented[0];
    }
    assert EnableI3(I3Autostart) == I3Autostart by {
      NoCommentedSuffix(I3Autostart, 0);
      assert I3Autostart[0..] == I3Autostart;
    }
    ReplaceWhole(I3Autostart, I3Commented);
  }

  /** A suffix of the bare directive holds no commented directive to uncomment. */
  lemma {:induction false} NoCommentedSuffix(x: string, k: nat)
    requires x == I3Autostart && k <= |x|
    ensures ReplaceAll(x[k..], I3Commented, I3Autostart) == x[k..]
    decreases |x| - k
  {
    NoMarkInDirective();
    if k < |x| {
      assert !StartsWith(x[k..], I3Commented) by {
        assert |x[k..]| < |I3Commented|;
      }
      NoCommentedSuffix(x, k + 1);
      assert x[k..][1..] == x[k + 1..];
      assert x[k..] == [x[k]] + x[k + 1..];
    }
  }

  /**
   A fault in the i3 step after a successful link step keeps the link change,
   leaves the i3 text as it was and the switch at its old value, so the switch
   and the link may then disagree.
   */
  lemma ConfigFaultKeepsLinkChange(s: AutostartState, want: bool, faults: IoFaults)
    requires s.i3Config.Some? && faults.configFails && !faults.linkFails
    ensures var r := Toggle(s, want, faults);
            && r.outcome == IoFailed
            && r.state == AutostartState(s.autostart, want, s.i3Config)
            && (s.autostart == s.linkExists && want != s.linkExists ==> r.state.autostart != r.state.linkExists)
  {
  }

  /** Disabling twice comments the directive out twice: the rewrite is not idempotent. */
  lemma DisableTwiceCommentsTwice()
    ensures var s := AutostartState(true, true, Some(I3Autostart));
            var r := Toggle(Toggle(s, false, NoFaults).state, false, NoFaults);
            r.state.i3Config == Some("##" + I3Autostart)
  {
    NoMarkInDirective();
    ReplaceWhole(I3Autostart, I3Commented);
    assert DisableI3(I3Commented) == "#" + I3Commented by {
      assert !StartsWith(I3Commented, I3Autostart) by { assert I3Commented[0] != I3Autostart[0]; }
      assert I3Commented[1..] == I3Autostart;
      assert DisableI3(I3Autostart) == I3Commented;
    }
    assert "#" + I3Commented == "##" + I3Autostart;
  }

  /** Enabling twice uncomments twice: "##" becomes "#" and then nothing. */
  lemma EnableTwiceUncommentsTwice()
    ensures var s := AutostartState(false, false, Some("#" + I3Commented));
            var r1 := Toggle(s, true, NoFaults);
            var r2 := Toggle(r1.state, true, NoFaults);
            r1.state.i3Config == Some(I3Commented) && r2.state.i3Config == Some(I3Autostart)
  {
    NoMarkInDirective();
    var twice := "#" + I3Commented;
    ReplaceWhole(I3Commented, I3Autostart);
    assert EnableI3(twice) == I3Commented by {
      assert !StartsWith(twice, I3Commented) by { assert twice[1] != I3Commented[1]; }
      assert twice[1..] == I3Commented;
      assert "#" + I3Autostart == I3Commented;
    }
  }

  /**
   The file text after `seek(0)` and `write(written)` over `previous`, before
   `truncate()`: a shorter text leaves the tail of the previous one behind.
   */
  function Overwrite(previous: string, written: string): string {
    if |written| < |previous| then written + previous[|written|..] else written
  }

  /**
   Truncating after the written text leaves exactly the written text, whatever
   was in the file before; without the truncation a longer previous text would
   leave its tail behind.
   */
  lemma OverwriteThenTruncate(previous: string, written: string)
    ensures |written| <= |Overwrite(previous, written)|
    ensures Overwrite(previous, written)[..|written|] == written
    ensures |written| < |previous| ==> Overwrite(previous, written) != written
  {
  }

  /**
   The welcome window's autostart switch, with the parts of the filesystem
   that `set_autostart` changes.
   */
  class AutostartSwitch {
    var autostart: bool
    var linkExists: bool
    var i3Config: Option<string>

    function State(): AutostartState
      reads this
    {
      AutostartState(autostart, linkExists, i3Config)
    }

    /** At start-up the switch shows whether the autostart file exists. */
    constructor (linkExists: bool, i3Config: Option<string>)
      ensures State() == AutostartState(linkExists, linkExists, i3Config)
    {
      this.autostart := linkExists;
      this.linkExists := linkExists;
      this.i3Config := i3Config;
    }

    /**
     `set_autostart(want)`; `faults` says which filesystem calls raise, the
     returned outcome whether an `OSError` was caught, and `action` which
     symlink call was made.
     */
    method SetAutostart(want: bool, faults: IoFaults) returns (outcome: Outcome, action: LinkAction)
      modifies this
      ensures Toggled(State(), outcome, action) == Toggle(old(State()), want, faults)
    {
      action := NoLinkOp;
      if want && !linkExists {
        action := CreateLink;
        if faults.linkFails {
          return IoFailed, action;
        }
        linkExists := true;
      } else if !want && linkExists {
        action := RemoveLink;
        if faults.linkFails {
          return IoFailed, action;
        }
        linkExists := false;
      }
      if i3Config.Some? {
        if faults.configFails {
          return IoFailed, action;
        }
        var content := i3Config.value;
        var replaced;
        if want {
          replaced := ReplaceAll(content, I3Commented, I3Autostart);
        } else {
          replaced := ReplaceAll(content, I3Autostart, I3Commented);
        }
        OverwriteThenTruncate(content, replaced);
        i3Config := Some(Overwrite(content, replaced));
        i3Config := Some(i3Config.value[..|replaced|]);
      }
      autostart := want;
      outcome := Applied;
    }
  }
}
