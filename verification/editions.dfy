/** The repository carries two iterations of the same game: the terminal game
    (main.py) and the later graphical one (rogueFusion.py). Operations whose
    rules differ between the two take an `Edition`. */
module Editions {

  datatype Edition = Terminal | Graphical
}
