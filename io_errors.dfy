/** The exceptions thrown by the parser and the printer of src/io.cpp, as values. */
module IoErrors {
  datatype IoError =
    | InvalidUnit(text: string)      // std::runtime_error "Invalid unit dimension: <text>"
    | UnknownPrefix(letter: char)    // std::out_of_range from the SI prefix map
    | InvalidArgument                // std::invalid_argument from std::stoi
    | UnknownExponent(exp: int)      // std::out_of_range from si_prefix
    | UnitMismatch                   // std::runtime_error "Unit mismatch" (include/quantity/io.hpp)
}
