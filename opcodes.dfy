/** The instruction set of the virtual machine. Nothing in the core interprets
    it: it is only the element type of a heap `Function` payload. */
module OpCodes {
  import opened Common

  datatype OpCode =
    | Add | Sub | Mul | Div | Mod | Neg | Not | And | Or
    | Eq | Neq | Lt | Gt | Lte | Gte
    | PushI32(int32: i32)
    | PushF32(float32: bv32)        // an f32 literal, kept as its bit pattern
    | PushString(text: string)
    | PushBool(flag: bool)
    | PushObject
    | PushList
    | Function(body: seq<OpCode>)
    | Store
    | Load
    | Jump(offset: i64)
    | JumpIfFalse(offset: i64)
    | Call
    | Return
}
