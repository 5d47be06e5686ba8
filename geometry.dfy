/** Integer and real vectors and the few Mathf helpers the terrain code uses. */
module Geometry {

  /** Unity's Vector2Int: grid coordinates, map sizes and chunk coordinates. */
  datatype Vector2Int = Vector2Int(x: int, y: int)

  /** Unity's Vector2, used for texture coordinates; modelled exactly by reals. */
  datatype Vector2 = Vector2(x: real, y: real)

  /** Unity's Vector3, used for vertex positions; modelled exactly by reals. */
  datatype Vector3 = Vector3(x: real, y: real, z: real)

  datatype Option<T> = None | Some(value: T)

  function AddInt(a: Vector2Int, b: Vector2Int): Vector2Int
  {
    Vector2Int(a.x + b.x, a.y + b.y)
  }

  function Add3(a: Vector3, b: Vector3): Vector3
  {
    Vector3(a.x + b.x, a.y + b.y, a.z + b.z)
  }

  /** The world position of integer grid coordinates, as the C# code builds it with `new Vector3(x, y, z)`. */
  function FromInts(x: int, y: int, z: int): Vector3
  {
    Vector3(x as real, y as real, z as real)
  }

  function Min(a: int, b: int): int
  {
    if a < b then a else b
  }

  function Max(a: int, b: int): int
  {
    if a > b then a else b
  }

  /** Mathf.Clamp on ints: a value below `min` becomes `min`, otherwise one above `max` becomes `max`. */
  function Clamp(value: int, min: int, max: int): (r: int)
    ensures min <= max ==> min <= r <= max
    ensures min <= value <= max ==> r == value
    ensures min <= max ==> (value < min ==> r == min) && (value > max ==> r == max)
  {
    if value < min then min else if value > max then max else value
  }
}
