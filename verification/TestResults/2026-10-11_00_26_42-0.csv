TestResult.DisplayName,TestResult.Outcome,TestResult.Duration,TestResult.ResourceCount,RandomSeed
Decimal.ShowTwoDigits (correctness),Passed,00:00:00.3699095,212946,2
Decimal.ShowTwoDigits (well-formedness),Passed,00:00:00.3196909,21807,2
