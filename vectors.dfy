/** Godot's vector structs, with their float components taken as exact reals. */
module Vectors {

  datatype Vector2 = Vector2(x: real, y: real)

  datatype Vector3 = Vector3(x: real, y: real, z: real) {

    /** Component-wise negation, the reflection through the origin. */
    function Negated(): Vector3 {
      Vector3(-x, -y, -z)
    }
  }
}
