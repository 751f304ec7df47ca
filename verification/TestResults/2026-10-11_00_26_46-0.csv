TestResult.DisplayName,TestResult.Outcome,TestResult.Duration,TestResult.ResourceCount,RandomSeed
Decimal.ShowTwoDigits (correctness),Failed,00:00:30.2855817,41756303,3
Decimal.ShowTwoDigits (well-formedness),Passed,00:00:00.2957955,21805,3
