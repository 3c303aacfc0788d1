/** The position of a key: keypos_t of quantum/keyboard.h. */
module Keys {

  datatype Key = Key(row: nat, col: nat)
}
