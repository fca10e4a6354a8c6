/** Ways down a binary tree, shared by the two search trees and their heap shapes. */
module Paths {
  /** Which child a step goes to. */
  datatype Dir = Left | Right

  /** The steps from the root to a position: where a walking `currentNode` pointer has got to. */
  type Path = seq<Dir>

  function Other(d: Dir): Dir
  {
    if d == Left then Right else Left
  }
}
