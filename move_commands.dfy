/**
  The cursor-move command that src/editor/events.rs and src/editor/mod.rs
  receive from the navigation methods: the target `(col, row)` and whether
  the move was vertical. The navigation revision that builds it is not
  part of this model.
*/
module MoveCommands {
  import opened Common

  datatype MoveCursorTo = MoveCursorTo(col: nat, row: nat, isVertical: bool)

  /** `NavigationCommand = Option<MoveCursorTo>`: none when the cursor stays. */
  type NavigationCommand = Option<MoveCursorTo>
}
