/**
 * The action buttons of a VM card (crates/glidex-ui/src/components/vm_actions.rs):
 * which buttons are shown in which state, and the label of the start button.
 */
module VmActions {
  import opened UiTypes
  import Lifecycle

  datatype VmAction = Start | Stop | Pause | Delete

  /** `can_start`. */
  predicate CanStart(s: UiState) {
    s == Created || s == Stopped || s == Paused
  }

  /** `can_stop`. */
  predicate CanStop(s: UiState) {
    s == Running || s == Paused
  }

  /** `can_pause`. */
  predicate CanPause(s: UiState) {
    s == Running
  }

  /** The start button offers to resume a paused VM. */
  function StartLabel(s: UiState): (caption: string)
    ensures caption == "Resume" <==> s == Paused
    ensures caption != "Resume" ==> caption == "Start"
  {
    if s == Paused then "Resume" else "Start"
  }

  /** The buttons of the card, in the order they are laid out; Delete is always there. */
  function Buttons(s: UiState): (bs: seq<VmAction>)
    ensures |bs| > 0 && bs[|bs| - 1] == Delete
  {
    (if CanStart(s) then [Start] else []) + (if CanPause(s) then [Pause] else [])
      + (if CanStop(s) then [Stop] else []) + [Delete]
  }

  /**
   * The UI offers an action exactly when the server accepts it in that
   * state (the acceptance sets of `start_vm`, `stop_vm` and `pause_vm`),
   * and always offers Delete.
   */
  lemma ButtonsMatchServer(s: UiState)
    ensures Start in Buttons(s) <==> Lifecycle.StartAccepts(ToServer(s))
    ensures Stop in Buttons(s) <==> Lifecycle.StopAccepts(ToServer(s))
    ensures Pause in Buttons(s) <==> Lifecycle.PauseAccepts(ToServer(s))
    ensures Delete in Buttons(s)
  {
  }
}
