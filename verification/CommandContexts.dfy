/**
 * In which context each command may run, one circumstance at a time: what every command can do in the open, and exactly
 * which commands each circumstance takes away (src/shared/commands.ts).
 */
module CommandContexts {
  import opened Options
  import opened Commands

  /** Nothing over the app, no typing, a thread with a run, the files panel and the main area of a project. */
  function InTheOpen(mac: bool, fromKey: bool, inComposer: bool): Context
  {
    Context(mac, false, false, NoOverlay, true, true, true, true, true, fromKey, inComposer)
  }

  const APPROVALS: set<int> := {12, 13}
  const THREAD_COMMANDS: set<int> := {6, 7, 8, 10, 12, 13, 14, 21}
  const FILES_COMMANDS: set<int> := {22, 23}
  const PICKER_KEYS: set<int> := {24, 25, 26, 27, 28, 29}
  const MODEL_PICKS: set<int> := {30, 31, 32, 33, 34}
  const OWNED: set<int> := {38, 39, 40, 41}

  /** In the open every command may run that is not handled by its owner and picks no model. */
  lemma OpenAllows(id: CommandId, mac: bool, fromKey: bool, inComposer: bool)
    ensures Allowed(id, InTheOpen(mac, fromKey, inComposer)) <==> id !in OWNED && id !in MODEL_PICKS
  {
  }

  /** Without a run only Stop is lost. */
  lemma NoRunLoses(id: CommandId, ctx: Context)
    ensures Allowed(id, ctx.(runActive := false)) <==> Allowed(id, ctx.(runActive := true)) && id != RUN_STOP
  {
  }

  /** Without a thread the commands on it are lost. */
  lemma NoThreadLoses(id: CommandId, ctx: Context)
    ensures Allowed(id, ctx.(threadOpen := false)) <==> Allowed(id, ctx.(threadOpen := true)) && id !in THREAD_COMMANDS
  {
  }

  /** Outside the files panel its two searches are lost. */
  lemma OutsideFilesLoses(id: CommandId, ctx: Context)
    ensures Allowed(id, ctx.(inFilesPanel := false)) <==> Allowed(id, ctx.(inFilesPanel := true)) && id !in FILES_COMMANDS
  {
  }

  /** A key opens a surface only in the main area of a project; a menu or the palette opens it anywhere. */
  lemma SurfaceKeysNeedMainArea(id: CommandId, ctx: Context)
    ensures Allowed(id, ctx) <==> Allowed(id, ctx.(mainAreaOpen := true, projectsMode := true))
                                  && (id in PICKER_KEYS && ctx.fromKey ==> ctx.mainAreaOpen && ctx.projectsMode)
  {
  }

  /** While typing, single keys that are text do nothing, and an approval is answered only from the composer. */
  lemma TypingLoses(id: CommandId, ctx: Context)
    ensures Allowed(id, ctx.(inTextInput := true))
            <==> Allowed(id, ctx.(inTextInput := false)) && id !in PICKER_KEYS && id != WORKFLOW_DUPLICATE && id != WORKFLOW_DELETE
                 && (id in APPROVALS ==> ctx.inComposer)
  {
  }

  lemma WhenIgnores(id: CommandId, ctx: Context, overlay: Overlay, inTerminal: bool)
    ensures When(id, ctx.(overlay := overlay)) <==> When(id, ctx)
    ensures When(id, ctx.(inTerminal := inTerminal)) <==> When(id, ctx)
  {
  }

  /** In a terminal only Stop and the way back to the composer are left. */
  lemma TerminalLoses(id: CommandId, ctx: Context)
    ensures Allowed(id, ctx.(inTerminal := true)) <==> Allowed(id, ctx.(inTerminal := false)) && (id == RUN_STOP || id == COMPOSER_FOCUS)
  {
    WhenIgnores(id, ctx, NoOverlay, true);
    WhenIgnores(id, ctx, NoOverlay, false);
    hide When, AllowedInText, ScopeOf, Fixed;
  }

  /** Under a dialog only Stop is left, and under the palette also its own command. */
  lemma OverlayLoses(id: CommandId, ctx: Context)
    ensures Allowed(id, ctx.(overlay := ModalOverlay)) <==> Allowed(id, ctx.(overlay := NoOverlay)) && id == RUN_STOP
    ensures Allowed(id, ctx.(overlay := PaletteOverlay))
            <==> Allowed(id, ctx.(overlay := NoOverlay)) && (id == RUN_STOP || id == PALETTE_OPEN)
  {
    NeedsOpenPicker(id, ctx);
    WhenIgnores(id, ctx, ModalOverlay, true);
    WhenIgnores(id, ctx, PaletteOverlay, true);
    WhenIgnores(id, ctx, NoOverlay, true);
    hide When, AllowedInText, AllowedInTerminal, Fixed, ScopeOf;
  }

  lemma NeedsOpenPicker(id: CommandId, ctx: Context)
    ensures Allowed(id, ctx) && ScopeOf(id).ModelPicker? ==> ctx.overlay.ModelPickerOverlay?
    ensures ScopeOf(RUN_STOP).Global? && ScopeOf(PALETTE_OPEN).Global?
  {
    hide When, AllowedInText, AllowedInTerminal, Fixed;
  }

  /** The picks of a model run exactly under the model picker, outside a terminal; of the other commands Stop alone is left there. */
  lemma ModelPickerLoses(id: CommandId, ctx: Context)
    ensures id !in MODEL_PICKS ==>
              (Allowed(id, ctx.(overlay := ModelPickerOverlay)) <==> Allowed(id, ctx.(overlay := NoOverlay)) && id == RUN_STOP)
    ensures id in MODEL_PICKS ==> (Allowed(id, ctx) <==> ctx.overlay.ModelPickerOverlay? && !ctx.inTerminal)
  {
    WhenIgnores(id, ctx, ModelPickerOverlay, true);
    WhenIgnores(id, ctx, NoOverlay, true);
    PicksAre(id, ctx);
    hide When, AllowedInText, ScopeOf, Fixed;
  }

  lemma PicksAre(id: CommandId, ctx: Context)
    ensures ScopeOf(id).ModelPicker? <==> id in MODEL_PICKS
    ensures id in MODEL_PICKS ==> When(id, ctx) && AllowedInText(id) && !Fixed(id)
  {
  }

  /** With a dialog open no key runs anything but Stop, and Stop only while a run is active. */
  lemma DialogRunsOnlyStop(ids: seq<CommandId>, ctx: Context, registered: CommandId -> bool, run: Option<CommandId>)
    requires ctx.overlay.ModalOverlay? && Dispatches(ids, ctx, registered, run)
    ensures run.Some? ==> run.value == RUN_STOP && ctx.runActive
    ensures RUN_STOP in ids && registered(RUN_STOP) && ctx.runActive ==> run == Some(RUN_STOP)
  {
    hide Allowed;
    StopUnderDialog(ctx);
    if run.Some? {
      OverlayLoses(run.value, ctx);
      assert ctx == ctx.(overlay := ModalOverlay);
    }
  }

  lemma StopUnderDialog(ctx: Context)
    ensures Allowed(RUN_STOP, ctx) <==> ctx.runActive
  {
  }
}
